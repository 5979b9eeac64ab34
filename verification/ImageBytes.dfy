/** The files the packers write, byte by byte. */
module ImageBytes {
  import opened Bytes
  import opened Crc
  import opened CrcTheory
  import opened Header
  import opened Decoders
  import opened Discovery
  import opened Packer
  import opened PackedImages
  import VfsImages

  // ---- Fields of a part, in the whole ----

  lemma WordInside(b: seq<byte>, at: nat, n: nat, k: nat)
    requires at + n <= |b| && k + 4 <= n
    ensures Word(b[at..at + n], k) == Word(b, at + k)
  {
  }

  lemma HalfInside(b: seq<byte>, at: nat, n: nat, k: nat)
    requires at + n <= |b| && k + 2 <= n
    ensures Half(b[at..at + n], k) == Half(b, at + k)
  {
  }

  // ---- Overlay images ----

  /** A directory of `n` entries at the front of `b`, which it says is as long as it is. */
  ghost predicate DirectoryAtFront(b: seq<byte>, n: nat) {
    && |b| >= 32 && DirectoryMark(b) && VersionOne(b) && Crc32(b[..20]) == SEALED
    && Half(b, 6) == n && Word(b, 8) == 32 && Word(b, 12) == |b|
  }

  /** A container at `at`: a valid header that describes the code behind it. */
  ghost predicate ContainerLies(b: seq<byte>, at: nat, x: Module) {
    && at + 32 + |x.code| <= |b| && OverlayMark(b[at..at + 32]) && VersionOne(b[at..at + 32])
    && Crc32(b[at..at + 32]) == SEALED
    && Half(b, at + 6) == 0 && Word(b, at + 8) == x.id && Word(b, at + 12) == |x.code|
    && Word(b, at + 16) == x.entryOffset && Word(b, at + 20) == x.ramTarget
    && b[at + 24..at + 28] == LeBits32(Crc32(x.code)) && b[at + 32..at + 32 + |x.code|] == x.code
  }

  lemma ContainerIs(b: seq<byte>, at: nat, x: Module)
    requires Packable(x) && at + 32 + |x.code| <= |b| && b[at..at + 32 + |x.code|] == Container(x)
    ensures ContainerLies(b, at, x)
  {
    hide Crc32, EncodeHeader, NewHeader, LeBits32, Half, Word, Container, OverlayMark, VersionOne, DecodeHeader;
    ContainerHeader(b, at, x);
    var h := b[at..at + 32];
    NewHeaderFields(x.id, |x.code|, x.entryOffset, x.ramTarget, Crc32(x.code));
    assert h == EncodeHeader(HeaderOf(x));
    HalfInside(b, at, 32, 6);
    WordInside(b, at, 32, 8); WordInside(b, at, 32, 12); WordInside(b, at, 32, 16); WordInside(b, at, 32, 20);
    assert h[24..28] == b[at + 24..at + 28];
  }

  lemma DirectoryIs(ms: seq<Module>)
    requires Fits(ms)
    ensures DirectoryAtFront(Image(ms), |ms|)
  {
    hide Crc32, EncodeDirectory, EncodeEntry, LeBits32, Half, Word, Container, Body, IndexBytes, EntriesOf;
    hide EncodeHeader, Starts;
    var b, d := Image(ms), DirectoryOf(ms);
    PackedFileIsFlash(ms);
    ImageHead(b, 0, ms);
    var front := b[0..32];
    EncodedDirectory(d);
    HalfInside(b, 0, 32, 6);
    WordInside(b, 0, 32, 8); WordInside(b, 0, 32, 12);
    assert front[..20] == b[..20];
    SameMark(b);
    SmallCount(ms);
    WholeLength(ms);
  }

  lemma SameMark(b: seq<byte>)
    requires |b| >= 32
    ensures DirectoryMark(b) == DirectoryMark(b[0..32]) && VersionOne(b) == VersionOne(b[0..32])
    ensures SuperblockMark(b) == SuperblockMark(b[0..32])
  {
  }

  lemma WholeLength(ms: seq<Module>)
    requires Fits(ms)
    ensures DirectoryOf(ms).totalBytes == |Image(ms)|
  {
    hide Container, Body, EncodeDirectory, IndexBytes, EntriesOf;
  }

  /**
   * A packed image that fits its fields, in plain bytes: the directory, each module's entry, and the
   * container the entry points to, on a multiple of four and with the checksum the entry gives.
   */
  lemma PackedImageBytes(ms: seq<Module>, i: nat)
    requires Fits(ms) && i < |ms|
    ensures var (b, e) := (Image(ms), 32 + 16 * i);
            && DirectoryAtFront(b, |ms|) && e + 16 <= |b|
            && var at := Word(b, e + 4);
               && Word(b, e) == ms[i].id && Word(b, e + 8) == |ms[i].code|
               && at % 4 == 0 && 32 + 16 * |ms| <= at && ContainerLies(b, at, ms[i])
               && b[e + 12..e + 16] == LeBits32(Crc32(b[at..at + 32 + |ms[i].code|]))
  {
    hide Crc32, EncodeDirectory, EncodeEntry, LeBits32, Half, Word, Container, Body, IndexBytes, EntriesOf, Image;
    hide ContainerLies, DirectoryAtFront, Aligned, EndOf, Start, ImageAt, Fits;
    var b, e, entry := Image(ms), 32 + 16 * i, EntriesOf(ms)[i];
    DirectoryIs(ms);
    PackedFileIsFlash(ms);
    ImageEntry(b, 0, ms, i, e);
    ImageContainer(b, 0, ms, i);
    EntryIs(ms, i);
    EncodedEntry(entry);
    WordInside(b, e, 16, 0); WordInside(b, e, 16, 4); WordInside(b, e, 16, 8);
    assert b[e..e + 16][12..16] == b[e + 12..e + 16];
    PackableAt(ms, i);
    ContainerIs(b, entry.flashOffset, ms[i]);
    PlaceIsAligned(ms, i);
  }

  lemma PackableAt(ms: seq<Module>, i: nat)
    requires Fits(ms) && i < |ms|
    ensures Packable(ms[i])
  {
  }

  lemma PlaceIsAligned(ms: seq<Module>, i: nat)
    requires Fits(ms) && i < |ms|
    ensures EntriesOf(ms)[i].flashOffset % 4 == 0 && 32 + 16 * |ms| <= EntriesOf(ms)[i].flashOffset
  {
    hide Container, Body, Aligned, EntriesOf, Padded, EndOf, Places;
    EntryPlace(ms, i);
    StartAligned(|ms|);
    EndOfAligned(Start(|ms|), ms[..i]);
    EntryIs(ms, i);
  }

  /** What lies between one container and the next, at most three bytes, is zero. */
  lemma GapsAreZero(ms: seq<Module>, i: nat, x: nat)
    requires i < |ms|
    ensures var (end, next) := (|Body(ms[..i])|, |Aligned(Body(ms[..i]))|);
            && |Body(ms)| >= next && next < end + 4
            && (end <= x < next ==> Body(ms)[x] == 0)
  {
    hide Container, Aligned, Zeros;
    BodyHasPrefix(ms, i);
    AlignedZeros(Body(ms[..i]), x);
  }

  lemma AlignedZeros(b: seq<byte>, x: nat)
    ensures |Aligned(b)| < |b| + 4 && (|b| <= x < |Aligned(b)| ==> Aligned(b)[x] == 0)
  {
  }

  lemma {:induction false} BodyHasPrefix(ms: seq<Module>, i: nat)
    requires i < |ms|
    ensures Aligned(Body(ms[..i])) <= Body(ms)
    decreases |ms|
  {
    hide Container;
    var n := |ms| - 1;
    if i < n {
      BodyHasPrefix(ms[..n], i);
      assert ms[..n][..i] == ms[..i];
      assert Body(ms[..n]) <= Aligned(Body(ms[..n])) <= Body(ms);
    }
  }

  // ---- VFS images ----

  ghost predicate SuperblockAtFront(b: seq<byte>, n: nat) {
    && |b| >= 32 && SuperblockMark(b) && VersionOne(b) && Crc32(b[..24]) == SEALED
    && Half(b, 6) == n && Word(b, 8) == 32 && Word(b, 12) == 32 + 16 * n && Word(b, 16) == |b|
  }

  lemma SuperblockIs(assets: seq<seq<byte>>)
    requires VfsImages.VfsFits(assets)
    ensures SuperblockAtFront(VfsImages.VfsImage(assets), |assets|)
  {
    hide Crc32, EncodeSuperblock, LeBits32, Half, Word, Starts;
    hide VfsImages.Data, VfsImages.AssetIndex, VfsImages.AssetsOf;
    var b, sb := VfsImages.VfsImage(assets), VfsImages.SuperblockOf(assets);
    var front := b[0..32];
    assert front == EncodeSuperblock(sb);
    EncodedSuperblock(sb);
    HalfInside(b, 0, 32, 6);
    WordInside(b, 0, 32, 8); WordInside(b, 0, 32, 12); WordInside(b, 0, 32, 16);
    assert front[..24] == b[..24];
    SameMark(b);
  }

  /** The i-th of `n` assets: its entry, with flags and checksum zero, and its bytes where the entry says. */
  ghost predicate AssetListed(b: seq<byte>, n: nat, i: nat, asset: seq<byte>) {
    var e := 32 + 16 * i;
    e + 16 <= |b| &&
    var at := 32 + 16 * n + Word(b, e + 4);
    && Word(b, e) == i + 1 && Word(b, e + 8) == |asset| && Half(b, e + 12) == 0 && Half(b, e + 14) == 0
    && at % 4 == 0 && at + |asset| <= |b| && b[at..at + |asset|] == asset
  }

  /**
   * A packed VFS image that fits its fields, in plain bytes: the superblock, and each asset, numbered from
   * one, on a multiple of four.
   */
  lemma PackedAssetBytes(assets: seq<seq<byte>>, i: nat)
    requires VfsImages.VfsFits(assets) && i < |assets|
    ensures SuperblockAtFront(VfsImages.VfsImage(assets), |assets|)
    ensures AssetListed(VfsImages.VfsImage(assets), |assets|, i, assets[i])
  {
    hide Crc32, EncodeSuperblock, EncodeAsset, LeBits32, Half, Word, VfsImages.Data, VfsImages.AssetIndex;
    hide VfsImages.AssetOf, VfsImages.VfsImage, VfsImages.VfsFits, VfsImages.AssetsAt, SuperblockAtFront, Start;
    var b, e, entry := VfsImages.VfsImage(assets), 32 + 16 * i, VfsImages.AssetOf(assets, i);
    SuperblockIs(assets);
    VfsImages.PackedFileIsFlash(assets);
    VfsImages.IndexHolds(b, 0, assets, i, e);
    VfsImages.DataHolds(b, 0, assets, i, 0, |assets[i]|);
    VfsImages.NumberOf(assets, i);
    EncodedAsset(entry);
    WordInside(b, e, 16, 0); WordInside(b, e, 16, 4); WordInside(b, e, 16, 8);
    HalfInside(b, e, 16, 12); HalfInside(b, e, 16, 14);
    NoFlags(assets, i);
    DataAligned(assets[..i]);
    StartIs(|assets|);
    assert assets[i][0..|assets[i]|] == assets[i];
  }

  lemma NoFlags(assets: seq<seq<byte>>, i: nat)
    requires i < |assets|
    ensures VfsImages.AssetOf(assets, i).flags == 0 && VfsImages.AssetOf(assets, i).crc16 == 0
  {
  }

  lemma StartIs(n: nat)
    ensures Start(n) == 32 + 16 * n && Start(n) % 4 == 0
  {
    StartAligned(n);
  }

  lemma DataAligned(assets: seq<seq<byte>>)
    ensures |VfsImages.Data(assets)| % 4 == 0
  {
    hide Aligned, Padded;
    if assets != [] {
      PaddedAligned(|VfsImages.Data(assets[..|assets| - 1]) + assets[|assets| - 1]|);
    }
  }

  /** After each asset come zeros, at most three, up to a multiple of four. */
  lemma AssetGapsAreZero(assets: seq<seq<byte>>, i: nat, x: nat)
    requires i < |assets|
    ensures var (end, next) := (|VfsImages.Data(assets[..i])| + |assets[i]|, |VfsImages.Data(assets[..i + 1])|);
            && next <= |VfsImages.Data(assets)| && end <= next < end + 4
            && (end <= x < next ==> VfsImages.Data(assets)[x] == 0)
  {
    hide Aligned, Zeros;
    DataHasPrefix(assets, i + 1);
    assert assets[..i + 1][..i] == assets[..i];
    AlignedZeros(VfsImages.Data(assets[..i]) + assets[i], x);
  }

  lemma {:induction false} DataHasPrefix(assets: seq<seq<byte>>, i: nat)
    requires i <= |assets|
    ensures VfsImages.Data(assets[..i]) <= VfsImages.Data(assets)
    decreases |assets|
  {
    var n := |assets| - 1;
    if i <= n {
      DataHasPrefix(assets[..n], i);
      assert assets[..n][..i] == assets[..i];
      var d := VfsImages.Data(assets[..n]) + assets[n];
      assert VfsImages.Data(assets[..n]) <= d <= Aligned(d);
    } else {
      assert assets[..i] == assets;
    }
  }
}
