/** The VFS packer, and the trip from packed assets through mount and chunked reads back to the assets. */
module VfsImages {
  import opened Bytes
  import opened Header
  import opened Storage
  import opened Discovery
  import opened Packer
  import opened PackedImages
  import opened Vfs

  // ---- The image ----

  /** Assets one after the other, each padded with zeros to a multiple of four. */
  function Data(assets: seq<seq<byte>>): seq<byte>
    decreases |assets|
  {
    if assets == [] then [] else Aligned(Data(assets[..|assets| - 1]) + assets[|assets| - 1])
  }

  /** Assets are numbered from one; numbers, places and lengths are cut to u32. */
  function AssetOf(assets: seq<seq<byte>>, i: nat): AssetEntry
    requires i < |assets|
  {
    AssetEntry((i + 1) % U32, |Data(assets[..i])| % U32, |assets[i]| % U32, 0, 0)
  }

  function AssetsOf(assets: seq<seq<byte>>): (es: seq<AssetEntry>)
    ensures |es| == |assets| && forall i :: 0 <= i < |es| ==> es[i] == AssetOf(assets, i)
  {
    seq(|assets|, i requires 0 <= i < |assets| => AssetOf(assets, i))
  }

  function AssetIndex(es: seq<AssetEntry>): (b: seq<byte>)
    ensures |b| == ENTRY_SIZE * |es|
  {
    if es == [] then [] else AssetIndex(es[..|es| - 1]) + EncodeAsset(es[|es| - 1])
  }

  function SuperblockOf(assets: seq<seq<byte>>): Superblock {
    Superblock(|assets| % U16, HEADER_SIZE, Start(|assets|) % U32, (Start(|assets|) + |Data(assets)|) % U32)
  }

  /** What the packer writes, for any assets at all. */
  function VfsImage(assets: seq<seq<byte>>): (b: seq<byte>)
    ensures |b| == Start(|assets|) + |Data(assets)|
  {
    EncodeSuperblock(SuperblockOf(assets)) + AssetIndex(AssetsOf(assets)) + Data(assets)
  }

  /** Fewer than 65536 assets and an image under 4 GiB. */
  ghost predicate VfsFits(assets: seq<seq<byte>>) {
    |assets| < U16 && Start(|assets|) + |Data(assets)| < U32
  }

  ghost predicate IndexDescribes(assets: seq<seq<byte>>) {
    && SuperblockOf(assets).assetCount == |assets| && SuperblockOf(assets).dataOffset == Start(|assets|)
    && forall i :: 0 <= i < |assets| ==>
         var e := AssetOf(assets, i);
         e.assetId == i + 1 && e.flashOffset == |Data(assets[..i])| && e.length == |assets[i]|
  }

  /**
   * The index counts and numbers its assets, places them and gives their lengths if and only if there
   * are fewer than 65536, none has 4 GiB and each starts less than 4 GiB into the data.
   */
  lemma IndexDescribesIff(assets: seq<seq<byte>>)
    ensures IndexDescribes(assets) <==>
            |assets| < U16 && forall i :: 0 <= i < |assets| ==> |assets[i]| < U32 && |Data(assets[..i])| < U32
  {
    hide Data;
    if |assets| < U16 {
      assert Start(|assets|) % U32 == Start(|assets|);
      forall i | 0 <= i < |assets|
        ensures AssetOf(assets, i).assetId == i + 1
        ensures AssetOf(assets, i).flashOffset == |Data(assets[..i])| <==> |Data(assets[..i])| < U32
        ensures AssetOf(assets, i).length == |assets[i]| <==> |assets[i]| < U32
      {
      }
    }
  }

  lemma {:induction false} DataGrows(assets: seq<seq<byte>>, i: nat)
    requires i < |assets|
    ensures var o := |Data(assets[..i])|;
            o + |assets[i]| <= |Data(assets)| && Data(assets)[o..o + |assets[i]|] == assets[i]
    decreases |assets|
  {
    hide Aligned, Padded;
    var n := |assets| - 1;
    var before := Data(assets[..n]);
    AlignedExtends(before + assets[n]);
    if i < n {
      DataGrows(assets[..n], i);
      assert assets[..n][..i] == assets[..i] && assets[..n][i] == assets[i];
      var o := |Data(assets[..i])|;
      SliceOfPrefix(before, before + assets[n], o, o + |assets[i]|);
      SliceOfPrefix(before + assets[n], Aligned(before + assets[n]), o, o + |assets[i]|);
    } else {
      SliceOfSuffix(before, assets[n]);
      SliceOfPrefix(before + assets[n], Aligned(before + assets[n]), |before|, |before| + |assets[n]|);
    }
  }

  // ---- The packer ----

  ghost predicate AssetsUpTo(assets: seq<seq<byte>>, i: nat, entries: seq<AssetEntry>, data: seq<byte>)
    requires i <= |assets|
  {
    entries == AssetsOf(assets)[..i] && data == Data(assets[..i])
  }

  lemma AssetStep(assets: seq<seq<byte>>, i: nat, entries: seq<AssetEntry>, data: seq<byte>)
    requires i < |assets| && AssetsUpTo(assets, i, entries, data)
    ensures AssetsUpTo(assets, i + 1, entries + [AssetEntry((i + 1) % U32, |data| % U32, |assets[i]| % U32, 0, 0)],
                       Aligned(data + assets[i]))
  {
    hide Aligned;
    assert assets[..i + 1][..i] == assets[..i];
    assert AssetsOf(assets)[..i + 1] == AssetsOf(assets)[..i] + [AssetOf(assets, i)];
  }

  method PackVfs(assets: seq<seq<byte>>) returns (image: seq<byte>)
    ensures image == VfsImage(assets)
  {
    hide EncodeAsset, EncodeSuperblock, Aligned, Data, AssetsUpTo, Padded, VfsImage, WrapAdd, SuperblockOf;
    NoAssets(assets);
    var entries: seq<AssetEntry>, data: seq<byte>, assetId: u32 := [], [], 1;
    for i := 0 to |assets|
      invariant AssetsUpTo(assets, i, entries, data) && assetId == (i + 1) % U32
    {
      AssetStep(assets, i, entries, data);
      entries := entries + [AssetEntry(assetId, |data| % U32, |assets[i]| % U32, 0, 0)];
      data := PadData(data + assets[i]);
      WrapMore(i + 1, 1);
      assetId := WrapAdd(assetId, 1);
    }
    var indexOffset := HEADER_SIZE;
    var dataOffset := WrapAdd(indexOffset, (|entries| * ENTRY_SIZE) % U32);
    var totalBytes := WrapAdd(dataOffset, |data| % U32);
    var superblock := Superblock(|entries| % U16, indexOffset, dataOffset, totalBytes);
    AssetsPacked(assets, entries, data);
    image := EncodeSuperblock(superblock);
    for i := 0 to |entries|
      invariant image == EncodeSuperblock(superblock) + AssetIndex(entries[..i])
    {
      assert entries[..i + 1][..i] == entries[..i];
      image := image + EncodeAsset(entries[i]);
    }
    assert entries[..|entries|] == entries;
    image := image + data;
  }

  method PadData(data: seq<byte>) returns (padded: seq<byte>)
    ensures padded == Aligned(data)
  {
    padded := data;
    ghost var gap: nat, k: nat := (4 - |data| % 4) % 4, 0;
    while |padded| % 4 != 0
      invariant k <= gap && padded == data + Zeros(k)
      decreases gap - k
    {
      Counted(|data|, k);
      padded := padded + [0];
      k := k + 1;
    }
    Counted(|data|, k);
  }

  lemma NoAssets(assets: seq<seq<byte>>)
    ensures AssetsUpTo(assets, 0, [], [])
  {
  }

  lemma AssetsPacked(assets: seq<seq<byte>>, entries: seq<AssetEntry>, data: seq<byte>)
    requires AssetsUpTo(assets, |assets|, entries, data)
    ensures EncodeSuperblock(SuperblockOf(assets)) + AssetIndex(entries) + data == VfsImage(assets)
    ensures var dataOffset := WrapAdd(HEADER_SIZE, (|entries| * ENTRY_SIZE) % U32);
            SuperblockOf(assets)
            == Superblock(|entries| % U16, HEADER_SIZE, dataOffset, WrapAdd(dataOffset, |data| % U32))
  {
    hide EncodeSuperblock, AssetIndex, Data, WrapAdd;
    assert assets[..|assets|] == assets && AssetsOf(assets)[..|assets|] == AssetsOf(assets);
    var n := |entries| * ENTRY_SIZE;
    WrapMore(HEADER_SIZE, n);
    assert HEADER_SIZE + n == Start(|entries|);
    WrapMore(Start(|entries|), |data|);
  }

  // ---- Reading the image back ----

  /** Flash holding the packed assets at `base`, and anything elsewhere. */
  ghost predicate AssetsAt(flash: seq<byte>, base: nat, assets: seq<seq<byte>>) {
    var image := VfsImage(assets);
    base + |image| <= |flash| && base + |image| < U32 && flash[base..base + |image|] == image
  }

  /** The file the packer writes is such a flash. */
  lemma PackedFileIsFlash(assets: seq<seq<byte>>)
    requires VfsFits(assets)
    ensures AssetsAt(VfsImage(assets), 0, assets)
  {
    hide EncodeSuperblock, Data, AssetIndex, AssetsOf;
    var image := VfsImage(assets);
    assert image[0..0 + |image|] == image;
  }

  lemma {:induction false} AssetIndexSlice(es: seq<AssetEntry>, i: nat)
    requires i < |es|
    ensures AssetIndex(es)[ENTRY_SIZE * i..ENTRY_SIZE * i + ENTRY_SIZE] == EncodeAsset(es[i])
    decreases |es|
  {
    hide EncodeAsset;
    var n := |es| - 1;
    if i < n {
      AssetIndexSlice(es[..n], i);
      SliceOfPrefix(AssetIndex(es[..n]), AssetIndex(es), ENTRY_SIZE * i, ENTRY_SIZE * i + ENTRY_SIZE);
    } else {
      SliceOfSuffix(AssetIndex(es[..n]), EncodeAsset(es[n]));
    }
  }

  /** Mounting finds the superblock that was written. */
  lemma MountsPacked(flash: seq<byte>, base: u32, assets: seq<seq<byte>>)
    requires VfsFits(assets) && AssetsAt(flash, base, assets)
    ensures base + HEADER_SIZE <= |flash| && base + HEADER_SIZE < U32
    ensures MountedSuperblock(FlashReader(flash), base) == Ok(SuperblockOf(assets))
  {
    hide EncodeSuperblock, DecodeSuperblock, Data, AssetIndex, SuperblockOf, AssetsOf;
    var image := VfsImage(assets);
    Shifted(flash, base, image, 0, HEADER_SIZE);
    assert image[0..HEADER_SIZE] == EncodeSuperblock(SuperblockOf(assets));
    FlashGives(flash, base, HEADER_SIZE);
    SuperblockRoundTrip(SuperblockOf(assets));
  }

  lemma IndexHolds(flash: seq<byte>, base: nat, assets: seq<seq<byte>>, i: nat, o: nat)
    requires VfsFits(assets) && AssetsAt(flash, base, assets) && i < |assets| && o == HEADER_SIZE + ENTRY_SIZE * i
    ensures base + o + ENTRY_SIZE <= |flash| && base + o + ENTRY_SIZE < U32
    ensures flash[base + o..base + o + ENTRY_SIZE] == EncodeAsset(AssetOf(assets, i))
  {
    hide EncodeSuperblock, EncodeAsset, Data, AssetIndex, SuperblockOf, AssetsOf, AssetOf;
    var es := AssetsOf(assets);
    AssetIndexSlice(es, i);
    Middle(EncodeSuperblock(SuperblockOf(assets)), AssetIndex(es), Data(assets),
           ENTRY_SIZE * i, ENTRY_SIZE * i + ENTRY_SIZE);
    Shifted(flash, base, VfsImage(assets), o, o + ENTRY_SIZE);
  }

  lemma DataHolds(flash: seq<byte>, base: nat, assets: seq<seq<byte>>, i: nat, lo: nat, hi: nat)
    requires VfsFits(assets) && AssetsAt(flash, base, assets) && i < |assets| && lo <= hi <= |assets[i]|
    ensures var o := base + Start(|assets|) + AssetOf(assets, i).flashOffset;
            o + hi <= |flash| && o + hi < U32 && flash[o + lo..o + hi] == assets[i][lo..hi]
  {
    hide EncodeSuperblock, Data, AssetIndex, SuperblockOf, AssetsOf, AssetOf;
    DataGrows(assets, i);
    NumberOf(assets, i);
    var front := EncodeSuperblock(SuperblockOf(assets)) + AssetIndex(AssetsOf(assets));
    var data, o := Data(assets), |Data(assets[..i])|;
    Middle(front, data, [], o + lo, o + hi);
    assert front + data + [] == VfsImage(assets);
    Shifted(flash, base, VfsImage(assets), |front| + o + lo, |front| + o + hi);
    Shifted(data, o, assets[i], lo, hi);
  }

  /** The search over the index finds asset number `id` if there is one, and says so if not. */
  lemma {:induction false} SearchFinds(flash: seq<byte>, base: u32, start: u32, assets: seq<seq<byte>>,
                                       id: u32, i: nat, buf: seq<byte>)
    requires VfsFits(assets) && AssetsAt(flash, base, assets) && start == base + HEADER_SIZE
    requires |buf| == ENTRY_SIZE && i <= |assets| && (1 <= id <= |assets| ==> i < id)
    ensures FindEntryFrom(FlashReader(flash), start, |assets|, id, i, buf)
            == if 1 <= id <= |assets| then Ok(AssetOf(assets, id - 1)) else Err(AssetNotFound(id))
    decreases |assets| - i
  {
    hide EncodeAsset, DecodeAsset, AssetsAt, WrapAdd, VfsFits;
    if i < |assets| {
      var o := HEADER_SIZE + ENTRY_SIZE * i;
      IndexHolds(flash, base, assets, i, o);
      AssetRoundTrip(AssetOf(assets, i));
      NumberOf(assets, i);
      NoWrap(start, i * ENTRY_SIZE);
      var next := EncodeAsset(AssetOf(assets, i));
      var rd := FlashReader(flash);
      assert rd(base + o, buf) == Done(next);
      if i + 1 != id {
        SearchFinds(flash, base, start, assets, id, i + 1, next);
      }
    }
  }

  lemma NumberOf(assets: seq<seq<byte>>, i: nat)
    requires VfsFits(assets) && i < |assets|
    ensures AssetOf(assets, i).assetId == i + 1 && AssetOf(assets, i).length == |assets[i]|
    ensures AssetOf(assets, i).flashOffset == |Data(assets[..i])|
  {
    hide Data;
    DataGrows(assets, i);
  }

  lemma SuperblockIs(assets: seq<seq<byte>>)
    requires VfsFits(assets)
    ensures var sb := SuperblockOf(assets);
            sb.assetCount == |assets| && sb.indexOffset == HEADER_SIZE && sb.dataOffset == Start(|assets|)
  {
    hide Data;
  }

  lemma FindsAsset(flash: seq<byte>, base: u32, assets: seq<seq<byte>>, id: u32)
    requires VfsFits(assets) && AssetsAt(flash, base, assets)
    ensures FindEntryIn(FlashReader(flash), base, SuperblockOf(assets), id)
            == if 1 <= id <= |assets| then Ok(AssetOf(assets, id - 1)) else Err(AssetNotFound(id))
  {
    hide *;
    SuperblockIs(assets);
    SmallCount(assets);
    MountsPacked(flash, base, assets);
    NoWrap(base, HEADER_SIZE);
    SearchFinds(flash, base, base + HEADER_SIZE, assets, id, 0, Zeros(ENTRY_SIZE));
    SearchStarts(FlashReader(flash), base, SuperblockOf(assets), id);
  }

  lemma SearchStarts(rd: Reader, base: u32, sb: Superblock, id: u32)
    requires ValidReader(rd)
    ensures FindEntryIn(rd, base, sb, id)
            == FindEntryFrom(rd, WrapAdd(base, sb.indexOffset), sb.assetCount, id, 0, Zeros(ENTRY_SIZE))
  {
    hide FindEntryFrom, WrapAdd;
  }

  lemma AddressOf(flash: seq<byte>, base: u32, assets: seq<seq<byte>>, i: nat, offset: nat)
    requires VfsFits(assets) && AssetsAt(flash, base, assets) && i < |assets| && offset <= |assets[i]|
    ensures AssetAddress(base, SuperblockOf(assets), AssetOf(assets, i), offset)
            == base + Start(|assets|) + AssetOf(assets, i).flashOffset + offset
  {
    hide AssetsAt, WrapAdd, AssetOf, Data, SuperblockOf;
    SuperblockIs(assets);
    DataHolds(flash, base, assets, i, 0, offset);
    NoWrap(base, Start(|assets|));
    NoWrap(base + Start(|assets|), AssetOf(assets, i).flashOffset);
    NoWrap(base + Start(|assets|) + AssetOf(assets, i).flashOffset, offset);
  }

  /** A chunk of asset `i`: what is left of it from `offset` on, as far as the destination reaches. */
  lemma ChunkRead(flash: seq<byte>, base: u32, assets: seq<seq<byte>>, i: nat, offset: nat, dest: seq<byte>)
    requires VfsFits(assets) && AssetsAt(flash, base, assets) && i < |assets|
    ensures var a := assets[i];
            StreamChunkOf(FlashReader(flash), base, SuperblockOf(assets), i + 1, offset, dest)
            == if offset >= |a| then (dest, Ok(0))
               else
                 var n := Least(|a| - offset, |dest|);
                 (a[offset..offset + n] + dest[n..], Ok(n))
  {
    hide FindEntryIn, AssetAddress, AssetOf, SuperblockOf, AssetsAt, VfsFits;
    SmallCount(assets);
    FindsAsset(flash, base, assets, i + 1);
    NumberOf(assets, i);
    if offset < |assets[i]| {
      var n := Least(|assets[i]| - offset, |dest|);
      AddressOf(flash, base, assets, i, offset);
      DataHolds(flash, base, assets, i, offset, offset + n);
      var rd := FlashReader(flash);
      var at := AssetAddress(base, SuperblockOf(assets), AssetOf(assets, i), offset);
      assert rd(at, dest[..n]) == Done(assets[i][offset..offset + n]);
    }
  }

  lemma SmallCount(assets: seq<seq<byte>>)
    requires VfsFits(assets)
    ensures |assets| < U16
  {
  }

  /**
   * A client that reads on from `offset` into one destination after another, until a read returns
   * `Ok(0)`: the bytes it gathers, and whether it got that far.
   */
  function ReadOn(rd: Reader, base: u32, sb: Superblock, id: u32, offset: nat, dests: seq<seq<byte>>): (seq<byte>, bool)
    requires ValidReader(rd)
    decreases |dests|
  {
    if dests == [] then ([], false)
    else
      var (after, r) := StreamChunkOf(rd, base, sb, id, offset, dests[0]);
      if r.Err? then ([], false)
      else if r.value == 0 then ([], true)
      else
        var (rest, finished) := ReadOn(rd, base, sb, id, offset + r.value, dests[1..]);
        (after[..r.value] + rest, finished)
  }

  /** One chunk of `n` bytes, and what is read on from there. */
  lemma ReadOnMore(rd: Reader, base: u32, sb: Superblock, id: u32, offset: nat, dests: seq<seq<byte>>,
                   after: seq<byte>, n: nat)
    requires ValidReader(rd) && dests != [] && 0 < n <= |after|
    requires StreamChunkOf(rd, base, sb, id, offset, dests[0]) == (after, Ok(n))
    ensures ReadOn(rd, base, sb, id, offset, dests)
            == (after[..n] + ReadOn(rd, base, sb, id, offset + n, dests[1..]).0,
                ReadOn(rd, base, sb, id, offset + n, dests[1..]).1)
  {
    hide StreamChunkOf;
  }

  lemma ReadOnEnds(rd: Reader, base: u32, sb: Superblock, id: u32, offset: nat, dests: seq<seq<byte>>)
    requires ValidReader(rd) && dests != [] && StreamChunkOf(rd, base, sb, id, offset, dests[0]).1 == Ok(0)
    ensures ReadOn(rd, base, sb, id, offset, dests) == ([], true)
  {
    hide StreamChunkOf;
  }

  lemma GatherMore(a: seq<byte>, offset: nat, n: nat, rest: seq<byte>)
    requires offset + n <= |a| && rest <= a[offset + n..]
    ensures a[offset..offset + n] + rest <= a[offset..]
    ensures rest == a[offset + n..] ==> a[offset..offset + n] + rest == a[offset..]
  {
    assert a[offset..] == a[offset..offset + n] + a[offset + n..];
  }

  /**
   * Nonempty chunks of any sizes gather exactly the asset when the client stops at `Ok(0)`, a prefix
   * of it before that, and one chunk more than the asset has bytes is always enough to stop.
   */
  lemma {:induction false} ChunksRebuildAsset(flash: seq<byte>, base: u32, assets: seq<seq<byte>>, i: nat,
                                              offset: nat, dests: seq<seq<byte>>)
    requires VfsFits(assets) && AssetsAt(flash, base, assets) && i < |assets| && offset <= |assets[i]|
    requires forall k :: 0 <= k < |dests| ==> dests[k] != []
    ensures var (got, finished) := ReadOn(FlashReader(flash), base, SuperblockOf(assets), i + 1, offset, dests);
            && got <= assets[i][offset..] && (finished ==> got == assets[i][offset..])
            && (|dests| > |assets[i]| - offset ==> finished)
    decreases |dests|
  {
    hide StreamChunkOf, AssetsAt, SuperblockOf, VfsFits, FlashRead, ReadOn;
    SmallCount(assets);
    var rd, sb, a := FlashReader(flash), SuperblockOf(assets), assets[i];
    if dests == [] {
      ReadNothing(rd, base, sb, i + 1, offset);
    } else {
      ChunkRead(flash, base, assets, i, offset, dests[0]);
      if offset < |a| {
        var n := Least(|a| - offset, |dests[0]|);
        var chunk, left := a[offset..offset + n], dests[0][n..];
        ChunksRebuildAsset(flash, base, assets, i, offset + n, dests[1..]);
        ReadOnMore(rd, base, sb, i + 1, offset, dests, chunk + left, n);
        assert (chunk + left)[..n] == chunk;
        GatherMore(a, offset, n, ReadOn(rd, base, sb, i + 1, offset + n, dests[1..]).0);
      } else {
        ReadOnEnds(rd, base, sb, i + 1, offset, dests);
      }
    }
  }

  lemma ReadNothing(rd: Reader, base: u32, sb: Superblock, id: u32, offset: nat)
    requires ValidReader(rd)
    ensures ReadOn(rd, base, sb, id, offset, []) == ([], false)
  {
  }

  /** A whole-asset read gives the same bytes, and refuses exactly the buffers that are too short. */
  lemma WholeRead(flash: seq<byte>, base: u32, assets: seq<seq<byte>>, i: nat, dest: seq<byte>)
    requires VfsFits(assets) && AssetsAt(flash, base, assets) && i < |assets|
    ensures var a := assets[i];
            ReadAssetOf(FlashReader(flash), base, SuperblockOf(assets), i + 1, dest)
            == if |dest| < |a| then (dest, Err(BufferTooSmall(|a|, |dest|))) else (a + dest[|a|..], Ok(|a|))
  {
    hide StreamChunkOf, FindEntryIn, AssetsAt, SuperblockOf, VfsFits, AssetOf;
    SmallCount(assets);
    FindsAsset(flash, base, assets, i + 1);
    NumberOf(assets, i);
    var a := assets[i];
    if |dest| >= |a| {
      ChunkRead(flash, base, assets, i, 0, dest[..|a|]);
      if a == [] {
        assert dest[..0] == [] && a + dest[|a|..] == dest[..0] + dest[0..];
      } else {
        assert a[0..|a|] + dest[..|a|][|a|..] == a;
      }
    }
  }
}
