/** What the VFS reader answers, whatever storage answers it. */
module VfsAnswers {
  import opened Bytes
  import opened Crc
  import opened CrcTheory
  import opened Header
  import opened Decoders
  import opened Storage
  import opened Vfs

  /** Mounting fails on a failed read, and on exactly the superblocks the decoder refuses, with its error. */
  lemma MountAnswer(rd: Reader, base: u32)
    requires ValidReader(rd)
    ensures var (out, r) := (rd(base, Zeros(32)), MountedSuperblock(rd, base));
            var b := out.after;
            && |b| == 32
            && (r == Err(VfsStorage) <==> out.Fault?)
            && (r == Err(VfsInvalidMagic) <==> out.Done? && !SuperblockMark(b))
            && (r == Err(VfsUnsupportedVersion) <==> out.Done? && SuperblockMark(b) && !VersionOne(b))
            && (r == Err(SuperblockCrcMismatch) <==>
                out.Done? && SuperblockMark(b) && VersionOne(b) && Crc32(b[..24]) != SEALED)
            && (r.Ok? <==> out.Done? && SuperblockMark(b) && VersionOne(b) && Crc32(b[..24]) == SEALED)
            && (r.Ok? ==> r.value.assetCount == Half(b, 6) && r.value.indexOffset == Word(b, 8)
                          && r.value.dataOffset == Word(b, 12) && r.value.totalBytes == Word(b, 16))
  {
    hide DecodeSuperblock, SuperblockMark, VersionOne, Crc32, Half, Word;
    SuperblockAnswer(rd(base, Zeros(32)).after);
  }

  lemma EntryPlaceWraps(base: u32, index: u32, i: nat)
    ensures WrapAdd(WrapAdd(base, index), i * ENTRY_SIZE) == (base + index + 16 * i) % U32
  {
    hide WrapAdd;
    WrapTwice(base, index, i * ENTRY_SIZE);
  }

  /** The entries from the i-th to before the k-th can be read and have other identifiers. */
  ghost predicate Passed(rd: Reader, start: nat, id: u32, i: nat, k: nat)
    requires ValidReader(rd)
  {
    forall j :: i <= j < k ==> EntryRead(rd, start, j).Done? && Word(EntryRead(rd, start, j).after, 0) != id
  }

  /** The entry at which the search from the i-th on ends: a failed read, the first with the identifier, or the end. */
  lemma {:induction false} SearchAnswer(rd: Reader, base: u32, index: u32, count: u16, id: u32, i: nat) returns (k: nat)
    requires ValidReader(rd) && i <= count
    ensures i <= k <= count && Passed(rd, base + index, id, i, k)
    ensures var (out, r) := (EntryRead(rd, base + index, k),
                             FindEntryFrom(rd, WrapAdd(base, index), count, id, i, EntryBuffer(rd, base + index, i)));
            if k == count then r == Err(AssetNotFound(id))
            else if out.Fault? then r == Err(VfsStorage)
            else Word(out.after, 0) == id && r == Ok(DecodeAsset(out.after))
    decreases count - i
  {
    hide DecodeAsset, WrapAdd, Word;
    if i == count {
      k := i;
    } else {
      EntryPlaceWraps(base, index, i);
      var out := EntryRead(rd, base + index, i);
      AssetFields(out.after);
      if out.Fault? || DecodeAsset(out.after).assetId == id {
        k := i;
      } else {
        k := SearchAnswer(rd, base, index, count, id, i + 1);
      }
    }
  }

  /**
   * A search reads the index entry by entry and ends at the first that has the identifier, whose fields it
   * gives, or that cannot be read; reading all without either, it reports the asset not found.
   */
  lemma FindAnswer(rd: Reader, base: u32, sb: Superblock, id: u32) returns (k: nat)
    requires ValidReader(rd)
    ensures k <= sb.assetCount && Passed(rd, base + sb.indexOffset, id, 0, k)
    ensures var (out, r) := (EntryRead(rd, base + sb.indexOffset, k), FindEntryIn(rd, base, sb, id));
            if k == sb.assetCount then r == Err(AssetNotFound(id))
            else if out.Fault? then r == Err(VfsStorage)
            else
              && r.Ok? && r.value.assetId == Word(out.after, 0) == id && r.value.flashOffset == Word(out.after, 4)
              && r.value.length == Word(out.after, 8)
  {
    hide FindEntryFrom, EntryRead, WrapAdd, Word, DecodeAsset;
    k := SearchAnswer(rd, base, sb.indexOffset, sb.assetCount, id, 0);
    FirstBuffer(rd, base + sb.indexOffset);
    AssetFields(EntryRead(rd, base + sb.indexOffset, k).after);
  }

  lemma FirstBuffer(rd: Reader, start: nat)
    requires ValidReader(rd)
    ensures EntryBuffer(rd, start, 0) == Zeros(ENTRY_SIZE)
  {
  }

  lemma AssetPlaceWraps(base: u32, sb: Superblock, entry: AssetEntry, offset: nat)
    ensures AssetAddress(base, sb, entry, offset) == (base + sb.dataOffset + entry.flashOffset + offset) % U32
  {
    hide WrapAdd;
    WrapTwice(WrapAdd(base, sb.dataOffset), entry.flashOffset, offset);
    WrapTwice(base, sb.dataOffset, entry.flashOffset + offset);
  }

  /** What a chunk asks of storage: nothing past the end of the asset, else as much as is left and fits. */
  ghost function ChunkAnswer(rd: Reader, base: u32, sb: Superblock, entry: AssetEntry, offset: nat, len: nat,
                             dest: seq<byte>): (out: ReadOutcome)
    requires ValidReader(rd) && len <= |dest|
    ensures |out.after| == len
  {
    rd((base + sb.dataOffset + entry.flashOffset + offset) % U32, dest[..len])
  }

  /**
   * A chunk, from any storage: the search's error; nothing past the end of the asset; otherwise what storage
   * left in the front of the destination, with the rest of it untouched, and a count exactly if the read was
   * not refused.
   */
  lemma StreamAnswer(rd: Reader, base: u32, sb: Superblock, id: u32, offset: nat, dest: seq<byte>)
    requires ValidReader(rd)
    ensures var (found, got) := (FindEntryIn(rd, base, sb, id), StreamChunkOf(rd, base, sb, id, offset, dest));
            if found.Err? then got == (dest, Err(found.error))
            else if found.value.length <= offset then got == (dest, Ok(0))
            else
              var left := found.value.length - offset;
              var n := if left <= |dest| then left else |dest|;
              var out := ChunkAnswer(rd, base, sb, found.value, offset, n, dest);
              && got.0[..n] == out.after && got.0[n..] == dest[n..]
              && (got.1 == Ok(n) <==> out.Done?) && (got.1 == Err(VfsStorage) <==> out.Fault?)
  {
    hide FindEntryIn, AssetAddress;
    var found := FindEntryIn(rd, base, sb, id);
    if found.Ok? && offset < found.value.length {
      AssetPlaceWraps(base, sb, found.value, offset);
    }
  }

  /** A whole asset, from any storage: refused exactly for a shorter buffer, and then with both lengths. */
  lemma ReadAnswer(rd: Reader, base: u32, sb: Superblock, id: u32, dest: seq<byte>)
    requires ValidReader(rd)
    ensures var (found, got) := (FindEntryIn(rd, base, sb, id), ReadAssetOf(rd, base, sb, id, dest));
            if found.Err? then got == (dest, Err(found.error))
            else
              var n := found.value.length;
              if |dest| < n then got == (dest, Err(BufferTooSmall(n, |dest|)))
              else if n == 0 then got == (dest, Ok(0))
              else
                var out := ChunkAnswer(rd, base, sb, found.value, 0, n, dest);
                && got.0[..n] == out.after && got.0[n..] == dest[n..]
                && (got.1 == Ok(n) <==> out.Done?) && (got.1 == Err(VfsStorage) <==> out.Fault?)
  {
    hide FindEntryIn, StreamChunkOf, ChunkAnswer;
    var found := FindEntryIn(rd, base, sb, id);
    if found.Ok? && found.value.length <= |dest| {
      var n := found.value.length;
      StreamAnswer(rd, base, sb, id, 0, dest[..n]);
      SameAsked(rd, base, sb, found.value, n, dest);
      var got := StreamChunkOf(rd, base, sb, id, 0, dest[..n]);
      assert got.0[..n] == got.0;
      assert dest[..n] + dest[n..] == dest;
    }
  }

  lemma SameAsked(rd: Reader, base: u32, sb: Superblock, entry: AssetEntry, n: nat, dest: seq<byte>)
    requires ValidReader(rd) && n <= |dest|
    ensures ChunkAnswer(rd, base, sb, entry, 0, n, dest[..n]) == ChunkAnswer(rd, base, sb, entry, 0, n, dest)
  {
    assert dest[..n][..n] == dest[..n];
  }
}
