/** The overlay packer, and the trip from packed image through mount and load back to the payload. */
module Packer {
  import opened Bytes
  import opened Crc
  import opened Header
  import opened Discovery

  // ---- The image ----

  /** Zero bytes up to a multiple of four. */
  function Aligned(b: seq<byte>): (a: seq<byte>)
    ensures |a| == Padded(|b|)
  {
    b + Zeros((4 - |b| % 4) % 4)
  }

  function Body(ms: seq<Module>): seq<byte>
    decreases |ms|
  {
    if ms == [] then []
    else
      var n := |ms| - 1;
      Aligned(Body(ms[..n])) + Container(ms[n])
  }

  function Start(count: nat): nat {
    HEADER_SIZE + ENTRY_SIZE * count
  }

  /** Where u32 arithmetic puts byte `n` of the body, counting the modules in a u16. */
  function Offset(ms: seq<Module>, n: nat): u32 {
    (Start(|ms| % U16) + n) % U32
  }

  /** The i-th directory entry; its checksum covers header and payload. */
  function EntryOf(ms: seq<Module>, i: nat): DirectoryEntry
    requires i < |ms|
  {
    DirectoryEntry(ms[i].id, Offset(ms, |Aligned(Body(ms[..i]))|), |ms[i].code| % U32, Crc32(Container(ms[i])))
  }

  function IndexBytes(es: seq<DirectoryEntry>): (b: seq<byte>)
    ensures |b| == ENTRY_SIZE * |es|
  {
    if es == [] then [] else IndexBytes(es[..|es| - 1]) + EncodeEntry(es[|es| - 1])
  }

  function EntriesOf(ms: seq<Module>): (es: seq<DirectoryEntry>)
    ensures |es| == |ms|
  {
    seq(|ms|, i requires 0 <= i < |ms| => EntryOf(ms, i))
  }

  function DirectoryOf(ms: seq<Module>): OverlayDirectory {
    OverlayDirectory(|ms| % U16, HEADER_SIZE, Offset(ms, |Body(ms)|))
  }

  /** What the packer writes, for any modules at all: every count and length it stores is cut to its field. */
  function Image(ms: seq<Module>): (b: seq<byte>)
    ensures |b| == Start(|ms|) + |Body(ms)|
  {
    EncodeDirectory(DirectoryOf(ms)) + IndexBytes(EntriesOf(ms)) + Body(ms)
  }

  /** Fewer than 65536 modules and an image under 4 GiB. */
  ghost predicate Fits(ms: seq<Module>) {
    |ms| < U16 && AllPackable(ms) && Start(|ms|) + |Body(ms)| < U32
  }

  /** What is packed first stays where it is. */
  lemma {:induction false} BodyGrows(ms: seq<Module>, i: nat)
    requires i < |ms|
    ensures var o := |Aligned(Body(ms[..i]))|;
            && o + HEADER_SIZE + |ms[i].code| <= |Body(ms)|
            && Body(ms)[o..o + HEADER_SIZE + |ms[i].code|] == Container(ms[i])
    decreases |ms|
  {
    hide Container, Padded, Aligned;
    var n := |ms| - 1;
    var before, last := Body(ms[..n]), Container(ms[n]);
    AlignedExtends(before);
    if i < n {
      BodyGrows(ms[..n], i);
      assert ms[..n][..i] == ms[..i] && ms[..n][i] == ms[i];
      var o := |Aligned(Body(ms[..i]))|;
      SliceOfPrefix(before, Aligned(before) + last, o, o + HEADER_SIZE + |ms[i].code|);
    } else {
      SliceOfSuffix(Aligned(before), last);
    }
  }

  lemma AlignedExtends(b: seq<byte>)
    ensures b <= Aligned(b)
  {
  }

  lemma SliceOfPrefix(a: seq<byte>, whole: seq<byte>, lo: nat, hi: nat)
    requires a <= whole && lo <= hi <= |a|
    ensures whole[lo..hi] == a[lo..hi]
  {
  }

  lemma SliceOfSuffix(a: seq<byte>, b: seq<byte>)
    ensures (a + b)[|a|..|a| + |b|] == b
  {
  }

  /** Offsets count padded containers: the image's layout is that of `Places`. */
  lemma {:induction false} BodyEnds(at: nat, ms: seq<Module>)
    requires at % 4 == 0
    ensures at + |Aligned(Body(ms))| == EndOf(at, ms)
    decreases |ms|
  {
    hide Padded, Container;
    if ms == [] {
      assert Aligned([]) == [];
    } else {
      hide EndOf, Aligned;
      var n := |ms| - 1;
      BodyEnds(at, ms[..n]);
      EndOfLast(at, ms);
      PaddedAligned(|Body(ms[..n])|);
      PaddedSum(|Aligned(Body(ms[..n]))|, HEADER_SIZE + |ms[n].code|);
    }
  }

  lemma PaddedSum(a: nat, n: nat)
    requires a % 4 == 0
    ensures Padded(a + n) == a + Padded(n)
  {
  }

  lemma {:induction false} EndOfLast(at: nat, ms: seq<Module>)
    requires ms != []
    ensures EndOf(at, ms) == EndOf(at, ms[..|ms| - 1]) + Padded(HEADER_SIZE + |ms[|ms| - 1].code|)
    decreases |ms|
  {
    hide Padded;
    if |ms| > 1 {
      EndOfLast(at + Padded(HEADER_SIZE + |ms[0].code|), ms[1..]);
      assert ms[..|ms| - 1][1..] == ms[1..][..|ms| - 2];
    } else {
      assert ms[1..] == [] && ms[..0] == [];
    }
  }

  // ---- The packer ----

  function AsModules(overlays: seq<(u32, seq<byte>)>): (ms: seq<Module>)
    ensures |ms| == |overlays|
    ensures forall i :: 0 <= i < |ms| ==> ms[i] == Module(overlays[i].0, 0, 0, overlays[i].1)
  {
    seq(|overlays|, i requires 0 <= i < |overlays| => Module(overlays[i].0, 0, 0, overlays[i].1))
  }

  /** Header in front of the payload, with the payload's length cut to u32. */
  method PackOne(id: u32, dumped: seq<byte>) returns (ovlData: seq<byte>)
    ensures ovlData == Container(Module(id, 0, 0, dumped))
  {
    hide Crc32, NewHeader, EncodeHeader;
    var header := NewHeader(id, |dumped| % U32, 0, 0, Crc32(dumped));
    var bytes := ToBytes(header);
    ovlData := bytes[..] + dumped;
  }

  lemma NextByte(offset: u32)
    ensures WrapAdd(offset, 1) % 4 == (offset + 1) % 4
  {
  }

  lemma Counted(a: nat, k: nat)
    requires k <= (4 - a % 4) % 4
    ensures (a + k) % 4 == 0 <==> k == (4 - a % 4) % 4
  {
  }

  lemma WrapMore(n: nat, k: nat)
    ensures WrapAdd(n % U32, k % U32) == (n + k) % U32 && WrapAdd(n % U32, k) == (n + k) % U32
  {
  }

  lemma WrapKeepsFour(n: nat)
    ensures n % U32 % 4 == n % 4
  {
    assert n == n / U32 * U32 + n % U32;
  }

  /** Pads before a container; the offset is a multiple of four exactly when the payload's length is. */
  method PadPayload(currentOffset: u32, payload: seq<byte>) returns (offset: u32, padded: seq<byte>)
    requires currentOffset % 4 == |payload| % 4
    ensures padded == Aligned(payload) && offset == WrapAdd(currentOffset, |padded| - |payload|)
  {
    hide WrapAdd;
    offset, padded := currentOffset, payload;
    ghost var gap: nat, k: nat := (4 - currentOffset % 4) % 4, 0;
    NoStep(currentOffset);
    while offset % 4 != 0
      invariant k <= gap && padded == payload + Zeros(k)
      invariant offset % 4 == (currentOffset + k) % 4 && offset == WrapAdd(currentOffset, k)
      decreases gap - k
    {
      NextByte(offset);
      OneStep(currentOffset, k);
      Counted(currentOffset, k);
      padded := padded + [0];
      offset := WrapAdd(offset, 1);
      k := k + 1;
    }
    Counted(currentOffset, k);
  }

  lemma NoStep(a: u32)
    ensures WrapAdd(a, 0) == a
  {
  }

  lemma OneStep(a: nat, k: nat)
    ensures WrapAdd(WrapAdd(a, k), 1) == WrapAdd(a, k + 1)
  {
  }

  ghost predicate PackedUpTo(ms: seq<Module>, i: nat, entries: seq<DirectoryEntry>, payload: seq<byte>, offset: u32)
    requires i <= |ms|
  {
    entries == EntriesOf(ms)[..i] && payload == Body(ms[..i]) && offset == Offset(ms, |payload|)
  }

  lemma NothingPacked(ms: seq<Module>)
    ensures Start(|ms| % U16) < U32 && PackedUpTo(ms, 0, [], [], Start(|ms| % U16))
  {
  }

  lemma AllPacked(ms: seq<Module>, entries: seq<DirectoryEntry>, payload: seq<byte>, offset: u32)
    requires PackedUpTo(ms, |ms|, entries, payload, offset)
    ensures EncodeDirectory(OverlayDirectory(|ms| % U16, HEADER_SIZE, offset)) + IndexBytes(entries) + payload
            == Image(ms)
  {
    hide Container, EncodeDirectory, EncodeEntry, IndexBytes, EntryOf, Offset;
    assert ms[..|ms|] == ms && EntriesOf(ms)[..|ms|] == EntriesOf(ms);
  }

  /** The offset and the payload's length agree modulo four. */
  lemma OffsetKeepsFour(ms: seq<Module>, n: nat)
    ensures Offset(ms, n) % 4 == n % 4
  {
    var start := Start(|ms| % U16);
    assert start == 4 * (8 + 4 * (|ms| % U16));
    WrapKeepsFour(start + n);
  }

  lemma OffsetMoves(ms: seq<Module>, n: nat, k: nat)
    ensures WrapAdd(Offset(ms, n), k) == Offset(ms, n + k) && WrapAdd(Offset(ms, n), k % U32) == Offset(ms, n + k)
  {
    WrapMore(Start(|ms| % U16) + n, k);
  }

  lemma PackStep(ms: seq<Module>, i: nat, entries: seq<DirectoryEntry>, payload: seq<byte>, current: u32)
    requires i < |ms| && PackedUpTo(ms, i, entries, payload, current)
    ensures current % 4 == |payload| % 4
    ensures var offset := WrapAdd(current, |Aligned(payload)| - |payload|);
            PackedUpTo(ms, i + 1,
                       entries + [DirectoryEntry(ms[i].id, offset, |ms[i].code| % U32, Crc32(Container(ms[i])))],
                       Aligned(payload) + Container(ms[i]), WrapAdd(offset, |Container(ms[i])| % U32))
  {
    hide Container, Aligned, Offset, WrapAdd, Crc32;
    OffsetKeepsFour(ms, |payload|);
    OffsetMoves(ms, |payload|, |Aligned(payload)| - |payload|);
    OffsetMoves(ms, |Aligned(payload)|, |Container(ms[i])|);
    assert ms[..i + 1][..i] == ms[..i];
    assert EntriesOf(ms)[..i + 1] == EntriesOf(ms)[..i] + [EntriesOf(ms)[i]];
  }

  /** Nothing is written when there are no overlays. */
  method AutoPack(overlays: seq<(u32, seq<byte>)>) returns (image: Option<seq<byte>>)
    ensures image == if overlays == [] then None else Some(Image(AsModules(overlays)))
  {
    hide Crc32, NewHeader, EncodeEntry, EncodeDirectory, Container, Aligned, Body, Padded, PackedUpTo, Image,
         IndexBytes;
    hide WrapAdd;
    if overlays == [] {
      return None;
    }
    ghost var ms := AsModules(overlays);
    var entryCount: u16 := |overlays| % U16;
    NothingPacked(ms);
    var payloadStart := HEADER_SIZE + entryCount * ENTRY_SIZE;
    var currentOffset: u32 := payloadStart;
    var entries: seq<DirectoryEntry>, payload: seq<byte> := [], [];
    for i := 0 to |overlays|
      invariant PackedUpTo(ms, i, entries, payload, currentOffset)
    {
      PackStep(ms, i, entries, payload, currentOffset);
      currentOffset, payload := PadPayload(currentOffset, payload);
      var ovlData := PackOne(overlays[i].0, overlays[i].1);
      var ovlCrc := Crc32(ovlData);
      entries := entries + [DirectoryEntry(overlays[i].0, currentOffset, |overlays[i].1| % U32, ovlCrc)];
      currentOffset := WrapAdd(currentOffset, |ovlData| % U32);
      payload := payload + ovlData;
    }
    var dir := OverlayDirectory(entryCount, HEADER_SIZE, currentOffset);
    var out := WriteImage(dir, entries, payload);
    AllPacked(ms, entries, payload, currentOffset);
    return Some(out);
  }

  method WriteImage(dir: OverlayDirectory, entries: seq<DirectoryEntry>, payload: seq<byte>) returns (out: seq<byte>)
    ensures out == EncodeDirectory(dir) + IndexBytes(entries) + payload
  {
    hide EncodeEntry, EncodeDirectory;
    out := EncodeDirectory(dir);
    for i := 0 to |entries|
      invariant out == EncodeDirectory(dir) + IndexBytes(entries[..i])
    {
      assert entries[..i + 1][..i] == entries[..i];
      out := out + EncodeEntry(entries[i]);
    }
    assert entries[..|entries|] == entries;
    out := out + payload;
  }

  // ---- When the directory tells the truth ----

  /** Where the i-th container really is in the image. */
  function Position(ms: seq<Module>, i: nat): nat
    requires i < |ms|
  {
    Start(|ms|) + |Aligned(Body(ms[..i]))|
  }

  ghost predicate DirectoryDescribes(ms: seq<Module>) {
    && DirectoryOf(ms).entryCount == |ms|
    && forall i :: 0 <= i < |ms| ==> EntriesOf(ms)[i].flashOffset == Position(ms, i)
                                     && EntriesOf(ms)[i].codeSize == |ms[i].code|
  }

  /** An entry's offset is its container's place exactly for a u16 count and a u32 place. */
  lemma OffsetExactIff(ms: seq<Module>, n: nat)
    ensures Offset(ms, n) == Start(|ms|) + n <==> |ms| < U16 && Start(|ms|) + n < U32
  {
    if |ms| < U16 {
      assert |ms| % U16 == |ms|;
    } else {
      assert |ms| % U16 < |ms|;
      assert Offset(ms, n) <= Start(|ms| % U16) + n;
    }
  }

  /**
   * The directory counts its modules, places every container and gives every length if and only if
   * there are fewer than 65536 modules, no payload has 4 GiB and every container starts below 4 GiB.
   */
  lemma DirectoryDescribesIff(ms: seq<Module>)
    ensures DirectoryDescribes(ms) <==>
            |ms| < U16 && AllPackable(ms) && forall i :: 0 <= i < |ms| ==> Position(ms, i) < U32
  {
    hide Offset, Body, Aligned, Crc32, Container;
    forall i | 0 <= i < |ms|
      ensures EntriesOf(ms)[i].flashOffset == Position(ms, i) <==> |ms| < U16 && Position(ms, i) < U32
      ensures EntriesOf(ms)[i].codeSize == |ms[i].code| <==> Packable(ms[i])
    {
      OffsetExactIff(ms, |Aligned(Body(ms[..i]))|);
    }
  }

  /** An image that fits is such an image. */
  lemma EntryIs(ms: seq<Module>, i: nat)
    requires Fits(ms) && i < |ms|
    ensures var e := EntriesOf(ms)[i];
            && e.moduleId == ms[i].id && e.flashOffset == Start(|ms|) + |Aligned(Body(ms[..i]))|
            && e.codeSize == |ms[i].code| && e.crc == Crc32(Container(ms[i]))
  {
    hide Container, Body, Aligned, Offset;
    BodyGrows(ms, i);
    OffsetExactIff(ms, |Aligned(Body(ms[..i]))|);
  }
}
