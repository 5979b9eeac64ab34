/** The VFS reader: mounting, index search, chunked and whole reads. */
module Vfs {
  import opened Bytes
  import opened Header
  import opened Storage

  // ---- What each operation does, as functions of what storage answers ----

  function MountedSuperblock(rd: Reader, base: u32): Result<Superblock, VfsError> {
    var out := rd(base, Zeros(HEADER_SIZE));
    if out.Fault? then Err(VfsStorage) else DecodeSuperblock(out.after)
  }

  /** The search from entry `i` on; `buf` is the entry buffer, reused from read to read. */
  function FindEntryFrom(rd: Reader, indexStart: u32, count: u16, id: u32, i: nat, buf: seq<byte>)
    : Result<AssetEntry, VfsError>
    requires ValidReader(rd) && |buf| == ENTRY_SIZE
    decreases count - i
  {
    if i >= count then Err(AssetNotFound(id))
    else
      var out := rd(WrapAdd(indexStart, i * ENTRY_SIZE), buf);
      if out.Fault? then Err(VfsStorage)
      else
        var entry := DecodeAsset(out.after);
        if entry.assetId == id then Ok(entry) else FindEntryFrom(rd, indexStart, count, id, i + 1, out.after)
  }

  function FindEntryIn(rd: Reader, base: u32, sb: Superblock, id: u32): Result<AssetEntry, VfsError>
    requires ValidReader(rd)
  {
    FindEntryFrom(rd, WrapAdd(base, sb.indexOffset), sb.assetCount, id, 0, Zeros(ENTRY_SIZE))
  }

  function AssetAddress(base: u32, sb: Superblock, entry: AssetEntry, offset: nat): u32 {
    WrapAdd(WrapAdd(WrapAdd(base, sb.dataOffset), entry.flashOffset), offset)
  }

  /** The destination afterwards, and how many bytes were read. */
  function StreamEntry(rd: Reader, base: u32, sb: Superblock, entry: AssetEntry, offset: nat, dest: seq<byte>)
    : (r: (seq<byte>, Result<nat, VfsError>))
    requires ValidReader(rd)
    ensures |r.0| == |dest| && (r.1.Ok? ==> r.1.value <= |dest|)
  {
    if offset >= entry.length then (dest, Ok(0))
    else
      var n := Least(entry.length - offset, |dest|);
      var out := rd(AssetAddress(base, sb, entry, offset), dest[..n]);
      (out.after + dest[n..], if out.Fault? then Err(VfsStorage) else Ok(n))
  }

  function StreamChunkOf(rd: Reader, base: u32, sb: Superblock, id: u32, offset: nat, dest: seq<byte>)
    : (r: (seq<byte>, Result<nat, VfsError>))
    requires ValidReader(rd)
    ensures |r.0| == |dest| && (r.1.Ok? ==> r.1.value <= |dest|)
  {
    match FindEntryIn(rd, base, sb, id)
    case Err(e) => (dest, Err(e))
    case Ok(entry) => StreamEntry(rd, base, sb, entry, offset, dest)
  }

  function ReadAssetOf(rd: Reader, base: u32, sb: Superblock, id: u32, dest: seq<byte>)
    : (r: (seq<byte>, Result<nat, VfsError>))
    requires ValidReader(rd)
    ensures |r.0| == |dest|
  {
    match FindEntryIn(rd, base, sb, id)
    case Err(e) => (dest, Err(e))
    case Ok(entry) =>
      var n := entry.length;
      if |dest| < n then (dest, Err(BufferTooSmall(n, |dest|)))
      else
        var (head, r) := StreamChunkOf(rd, base, sb, id, 0, dest[..n]);
        (head + dest[n..], r)
  }

  // ---- The class ----

  class VfsReader {
    const partitionBase: u32
    const superblock: Superblock

    constructor (partitionBase: u32, superblock: Superblock)
      ensures this.partitionBase == partitionBase && this.superblock == superblock
    {
      this.partitionBase := partitionBase;
      this.superblock := superblock;
    }

    static method Mount(storage: Reader, partitionBase: u32) returns (r: Result<VfsReader, VfsError>)
      requires ValidReader(storage)
      ensures match MountedSuperblock(storage, partitionBase)
              case Err(e) => r == Err(e)
              case Ok(sb) =>
                && r.Ok? && fresh(r.value)
                && r.value.partitionBase == partitionBase && r.value.superblock == sb
    {
      var sb := storage(partitionBase, Zeros(HEADER_SIZE));
      if sb.Fault? {
        return Err(VfsStorage);
      }
      var superblock := DecodeSuperblock(sb.after);
      if superblock.Err? {
        return Err(superblock.error);
      }
      var reader := new VfsReader(partitionBase, superblock.value);
      return Ok(reader);
    }

    method FindEntry(storage: Reader, assetId: u32) returns (r: Result<AssetEntry, VfsError>)
      requires ValidReader(storage)
      ensures r == FindEntryIn(storage, partitionBase, superblock, assetId)
    {
      hide DecodeAsset;
      var indexStart := WrapAdd(partitionBase, superblock.indexOffset);
      var entryBuf := Zeros(ENTRY_SIZE);
      for i := 0 to superblock.assetCount
        invariant |entryBuf| == ENTRY_SIZE
        invariant FindEntryFrom(storage, indexStart, superblock.assetCount, assetId, i, entryBuf)
                  == FindEntryIn(storage, partitionBase, superblock, assetId)
      {
        var out := storage(WrapAdd(indexStart, i * ENTRY_SIZE), entryBuf);
        if out.Fault? {
          return Err(VfsStorage);
        }
        entryBuf := out.after;
        var entry := DecodeAsset(entryBuf);
        if entry.assetId == assetId {
          return Ok(entry);
        }
      }
      return Err(AssetNotFound(assetId));
    }

    method AssetLen(storage: Reader, assetId: u32) returns (r: Result<nat, VfsError>)
      requires ValidReader(storage)
      ensures match FindEntryIn(storage, partitionBase, superblock, assetId)
              case Err(e) => r == Err(e)
              case Ok(entry) => r == Ok(entry.length)
    {
      var entry := FindEntry(storage, assetId);
      if entry.Err? {
        return Err(entry.error);
      }
      return Ok(entry.value.length);
    }

    /** Streams into the first `len` bytes of `dest`. */
    method StreamChunk(storage: Reader, assetId: u32, offset: nat, dest: array<byte>, len: nat)
      returns (r: Result<nat, VfsError>)
      requires ValidReader(storage) && len <= dest.Length
      modifies dest
      ensures (dest[..len], r) == StreamChunkOf(storage, partitionBase, superblock, assetId, offset, old(dest[..len]))
      ensures dest[len..] == old(dest[len..])
    {
      hide FindEntryIn, AssetAddress;
      ghost var was := dest[..];
      var entry := FindEntry(storage, assetId);
      if entry.Err? {
        return Err(entry.error);
      }
      var assetLen := entry.value.length;
      if offset >= assetLen {
        return Ok(0);
      }
      var toRead := Least(assetLen - offset, len);
      assert was[..len][..toRead] == dest[..toRead];
      var read := ReadInto(storage, AssetAddress(partitionBase, superblock, entry.value, offset), dest, toRead);
      ghost var after := storage(AssetAddress(partitionBase, superblock, entry.value, offset), was[..toRead]).after;
      assert dest[..] == after + was[toRead..];
      assert dest[..len] == after + was[..len][toRead..];
      if !read {
        return Err(VfsStorage);
      }
      return Ok(toRead);
    }

    method ReadAsset(storage: Reader, assetId: u32, dest: array<byte>) returns (r: Result<nat, VfsError>)
      requires ValidReader(storage)
      modifies dest
      ensures (dest[..], r) == ReadAssetOf(storage, partitionBase, superblock, assetId, old(dest[..]))
    {
      hide FindEntryIn, StreamChunkOf;
      ghost var was := dest[..];
      var entry := FindEntry(storage, assetId);
      if entry.Err? {
        return Err(entry.error);
      }
      var assetLen := entry.value.length;
      if dest.Length < assetLen {
        return Err(BufferTooSmall(assetLen, dest.Length));
      }
      assert was[..assetLen] == dest[..assetLen];
      r := StreamChunk(storage, assetId, 0, dest, assetLen);
      assert dest[..] == dest[..assetLen] + was[assetLen..];
    }
  }
}
