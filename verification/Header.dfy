/** The on-flash records: overlay header, overlay directory, VFS superblock and asset entry. */
module Header {
  import opened Bytes
  import opened Crc
  import opened CrcTheory

  type Magic = m: seq<byte> | |m| == 4 witness [0, 0, 0, 0]

  const OVERLAY_MAGIC: Magic := [0x4F, 0x56, 0x4C, 0x31]  // "OVL1"
  const OVERLAY_VERSION: u16 := 1
  const DIR_MAGIC: Magic := [0x4F, 0x56, 0x4C, 0x44]  // "OVLD"
  const DIR_VERSION: u16 := 1
  const VFS_MAGIC: Magic := [0x56, 0x46, 0x53, 0x31]  // "VFS1"
  const VFS_VERSION: u16 := 1

  const HEADER_SIZE: nat := 32
  const ENTRY_SIZE: nat := 16

  datatype Result<+T, +E> = Ok(value: T) | Err(error: E)

  datatype OverlayError =
    | Storage
    | InvalidMagic
    | UnsupportedVersion
    | HeaderChecksumMismatch
    | PayloadCrcMismatch(expected: bv32, calculated: bv32)
    | SlotTooSmall(required: nat, available: nat)
    | ModuleNotFound(id: u32)
    | InvalidAlignment
    | InvalidSlotIndex

  datatype VfsError =
    | VfsStorage
    | VfsInvalidMagic
    | VfsUnsupportedVersion
    | SuperblockCrcMismatch
    | AssetNotFound(asset: u32)
    | BufferTooSmall(needed: nat, provided: nat)

  // ---- Overlay header ----

  datatype OverlayHeader = OverlayHeader(
    magic: Magic, version: u16, flags: u16, moduleId: u32, codeSize: u32, entryOffset: u32,
    ramTargetAddr: u32, payloadCrc: bv32, headerCrc: bv32)

  /** Everything the header checksum covers. */
  function EncodeBody(h: OverlayHeader): (b: seq<byte>)
    ensures |b| == 28
  {
    h.magic + Le16(h.version) + Le16(h.flags) + Le32(h.moduleId) + Le32(h.codeSize) + Le32(h.entryOffset)
    + Le32(h.ramTargetAddr) + LeBits32(h.payloadCrc)
  }

  function EncodeHeader(h: OverlayHeader): (b: seq<byte>)
    ensures |b| == HEADER_SIZE
  {
    EncodeBody(h) + LeBits32(h.headerCrc)
  }

  function NewHeader(moduleId: u32, codeSize: u32, entryOffset: u32, ramTargetAddr: u32,
                     payloadCrc: bv32): OverlayHeader
  {
    var h := OverlayHeader(OVERLAY_MAGIC, OVERLAY_VERSION, 0, moduleId, codeSize, entryOffset, ramTargetAddr,
                           payloadCrc, 0);
    h.(headerCrc := Crc32(EncodeHeader(h)[..28]))
  }

  function HeaderFields(b: seq<byte>): OverlayHeader
    requires |b| >= HEADER_SIZE
  {
    OverlayHeader(b[0..4], FromLe16(b[4..6]), FromLe16(b[6..8]), FromLe32(b[8..12]), FromLe32(b[12..16]),
                  FromLe32(b[16..20]), FromLe32(b[20..24]), FromLeBits32(b[24..28]), FromLeBits32(b[28..32]))
  }

  function DecodeHeader(b: seq<byte>): Result<OverlayHeader, OverlayError> {
    if |b| < HEADER_SIZE then Err(Storage)
    else if b[0..4] != OVERLAY_MAGIC then Err(InvalidMagic)
    else if FromLe16(b[4..6]) != OVERLAY_VERSION then Err(UnsupportedVersion)
    else if Crc32(b[..28]) != FromLeBits32(b[28..32]) then Err(HeaderChecksumMismatch)
    else Ok(HeaderFields(b))
  }

  /** `to_bytes`: nine copies into a zeroed 32-byte buffer. */
  method ToBytes(h: OverlayHeader) returns (buf: array<byte>)
    ensures fresh(buf) && buf[..] == EncodeHeader(h)
  {
    hide Le16, Le32, LeBits32;
    buf := new byte[32](_ => 0);
    CopyFromSlice(buf, 0, h.magic);
    CopyFromSlice(buf, 4, Le16(h.version));
    CopyFromSlice(buf, 6, Le16(h.flags));
    CopyFromSlice(buf, 8, Le32(h.moduleId));
    CopyFromSlice(buf, 12, Le32(h.codeSize));
    assert buf[..16] == h.magic + Le16(h.version) + Le16(h.flags) + Le32(h.moduleId) + Le32(h.codeSize);
    CopyFromSlice(buf, 16, Le32(h.entryOffset));
    CopyFromSlice(buf, 20, Le32(h.ramTargetAddr));
    CopyFromSlice(buf, 24, LeBits32(h.payloadCrc));
    CopyFromSlice(buf, 28, LeBits32(h.headerCrc));
  }

  lemma HeaderSlices(h: OverlayHeader, rest: seq<byte>)
    ensures var b := EncodeHeader(h) + rest;
            && b[..28] == EncodeBody(h) && b[0..4] == h.magic && b[4..6] == Le16(h.version) && b[6..8] == Le16(h.flags)
            && b[8..12] == Le32(h.moduleId) && b[12..16] == Le32(h.codeSize) && b[16..20] == Le32(h.entryOffset)
            && b[20..24] == Le32(h.ramTargetAddr) && b[24..28] == LeBits32(h.payloadCrc)
            && b[28..32] == LeBits32(h.headerCrc)
  {
    hide LeBytes, LeBits32;
  }

  /** Every field survives the trip, whatever follows the header. */
  lemma HeaderFieldsRoundTrip(h: OverlayHeader, rest: seq<byte>)
    ensures HeaderFields(EncodeHeader(h) + rest) == h
  {
    hide EncodeHeader, Le16, Le32, FromLe16, FromLe32, LeBits32, FromLeBits32;
    HeaderSlices(h, rest);
    Le16RoundTrip(h.version); Le16RoundTrip(h.flags);
    Le32RoundTrip(h.moduleId); Le32RoundTrip(h.codeSize); Le32RoundTrip(h.entryOffset); Le32RoundTrip(h.ramTargetAddr);
    LeBits32RoundTrip(h.payloadCrc); LeBits32RoundTrip(h.headerCrc);
  }

  /** A freshly created header decodes to itself. */
  lemma NewHeaderRoundTrip(moduleId: u32, codeSize: u32, entryOffset: u32, ramTargetAddr: u32, payloadCrc: bv32,
                           rest: seq<byte>)
    ensures var h := NewHeader(moduleId, codeSize, entryOffset, ramTargetAddr, payloadCrc);
            DecodeHeader(EncodeHeader(h) + rest) == Ok(h)
  {
    hide EncodeHeader, EncodeBody, Le16, Le32, FromLe16, FromLe32, LeBits32, FromLeBits32, Crc32;
    var h0 := OverlayHeader(OVERLAY_MAGIC, OVERLAY_VERSION, 0, moduleId, codeSize, entryOffset, ramTargetAddr,
                            payloadCrc, 0);
    var h := NewHeader(moduleId, codeSize, entryOffset, ramTargetAddr, payloadCrc);
    HeaderSlices(h, rest);
    HeaderSlices(h0, []);
    assert EncodeHeader(h0) + [] == EncodeHeader(h0);
    SameBody(h0, h.headerCrc);
    HeaderFieldsRoundTrip(h, rest);
    Le16RoundTrip(h.version);
    LeBits32RoundTrip(h.headerCrc);
  }

  lemma SameBody(h: OverlayHeader, crc: bv32)
    ensures EncodeBody(h.(headerCrc := crc)) == EncodeBody(h)
  {
  }

  /** Decoding loses nothing: the 32 bytes can be written back. */
  lemma DecodedHeaderReencodes(b: seq<byte>)
    requires |b| == HEADER_SIZE && DecodeHeader(b).Ok?
    ensures EncodeHeader(DecodeHeader(b).value) == b
  {
    hide Le16, Le32, FromLe16, FromLe32, LeBits32, FromLeBits32, Crc32;
    FromLe16RoundTrip(b[4..6]); FromLe16RoundTrip(b[6..8]);
    FromLe32RoundTrip(b[8..12]); FromLe32RoundTrip(b[12..16]);
    FromLe32RoundTrip(b[16..20]); FromLe32RoundTrip(b[20..24]);
    FromLeBits32RoundTrip(b[24..28]); FromLeBits32RoundTrip(b[28..32]);
  }

  /** The header checksum test is a test of all 32 bytes against one constant. */
  lemma AcceptedIffSealed(b: seq<byte>)
    requires |b| == HEADER_SIZE && b[0..4] == OVERLAY_MAGIC && FromLe16(b[4..6]) == OVERLAY_VERSION
    ensures DecodeHeader(b).Ok? <==> Crc32(b) == SEALED
  {
    hide Crc32, LeBits32, FromLeBits32, FromLe16;
    var x := FromLeBits32(b[28..32]);
    FromLeBits32RoundTrip(b[28..32]);
    assert b[..28] + b[28..32] == b;
    SealedCheck(b[..28], x);
  }

  /** A header damaged inside four consecutive bytes, checksum field included, is rejected. */
  lemma DamagedHeaderRejected(b: seq<byte>, c: seq<byte>, k: nat)
    requires |b| == HEADER_SIZE && DecodeHeader(b).Ok?
    requires c != b && AgreeOutside(b, c, k, 4)
    ensures DecodeHeader(c).Err?
  {
    hide Crc32, FromLe16;
    AcceptedIffSealed(b);
    FourByteWindow(b, c, k);
    if c[0..4] == OVERLAY_MAGIC && FromLe16(c[4..6]) == OVERLAY_VERSION {
      AcceptedIffSealed(c);
    }
  }

  /** A header hit by a burst of at most 32 bits, wherever it falls, is rejected. */
  lemma BurstHeaderRejected(b: seq<byte>, c: seq<byte>, k: nat)
    requires |b| == |c| == HEADER_SIZE && DecodeHeader(b).Ok?
    requires c != b && AgreeOutside(MessageBits(b), MessageBits(c), k, 32)
    ensures DecodeHeader(c).Err?
  {
    hide Crc32, FromLe16, MessageBits;
    AcceptedIffSealed(b);
    BurstDetected(b, c, k);
    if c[0..4] == OVERLAY_MAGIC && FromLe16(c[4..6]) == OVERLAY_VERSION {
      AcceptedIffSealed(c);
    }
  }

  /**
   * A checksum over header and payload together depends on the payload alone: it cannot tell one
   * valid header from another.
   */
  lemma ContainerCrcIgnoresHeader(b: seq<byte>, c: seq<byte>, payload: seq<byte>)
    requires |b| == |c| == HEADER_SIZE && DecodeHeader(b).Ok? && DecodeHeader(c).Ok?
    ensures Crc32(b + payload) == Crc32(c + payload) == Complement(Update(RESIDUE, payload))
  {
    hide Update, Complement, FromLe16;
    AcceptedIffSealed(b); AcceptedIffSealed(c);
    SealedRegister(b); SealedRegister(c);
    UpdateConcat(INIT, b, payload); UpdateConcat(INIT, c, payload);
  }

  // ---- Overlay directory ----

  datatype OverlayDirectory = OverlayDirectory(entryCount: u16, indexOffset: u32, totalBytes: u32)

  datatype DirectoryEntry = DirectoryEntry(moduleId: u32, flashOffset: u32, codeSize: u32, crc: bv32)

  function DirectoryBody(d: OverlayDirectory): (b: seq<byte>)
    ensures |b| == 16
  {
    DIR_MAGIC + Le16(DIR_VERSION) + Le16(d.entryCount) + Le32(d.indexOffset) + Le32(d.totalBytes)
  }

  function EncodeDirectory(d: OverlayDirectory): (b: seq<byte>)
    ensures |b| == HEADER_SIZE
  {
    DirectoryBody(d) + LeBits32(Crc32(DirectoryBody(d))) + Zeros(12)
  }

  function DecodeDirectory(b: seq<byte>): Result<OverlayDirectory, OverlayError> {
    if |b| < HEADER_SIZE then Err(Storage)
    else if b[0..4] != DIR_MAGIC then Err(InvalidMagic)
    else if FromLe16(b[4..6]) != DIR_VERSION then Err(UnsupportedVersion)
    else if Crc32(b[..16]) != FromLeBits32(b[16..20]) then Err(HeaderChecksumMismatch)
    else Ok(OverlayDirectory(FromLe16(b[6..8]), FromLe32(b[8..12]), FromLe32(b[12..16])))
  }

  lemma DirectoryRoundTrip(d: OverlayDirectory)
    ensures DecodeDirectory(EncodeDirectory(d)) == Ok(d) && EncodeDirectory(d)[0..4] == DIR_MAGIC
  {
    hide Le16, Le32, FromLe16, FromLe32, LeBits32, FromLeBits32, Crc32;
    var b := EncodeDirectory(d);
    assert b[..16] == DirectoryBody(d) && b[0..4] == DIR_MAGIC && b[4..6] == Le16(DIR_VERSION);
    assert b[6..8] == Le16(d.entryCount) && b[8..12] == Le32(d.indexOffset) && b[12..16] == Le32(d.totalBytes);
    assert b[16..20] == LeBits32(Crc32(DirectoryBody(d)));
    Le16RoundTrip(DIR_VERSION); Le16RoundTrip(d.entryCount);
    Le32RoundTrip(d.indexOffset); Le32RoundTrip(d.totalBytes);
    LeBits32RoundTrip(Crc32(DirectoryBody(d)));
  }

  function EncodeEntry(e: DirectoryEntry): (b: seq<byte>)
    ensures |b| == ENTRY_SIZE
  {
    Le32(e.moduleId) + Le32(e.flashOffset) + Le32(e.codeSize) + LeBits32(e.crc)
  }

  function DecodeEntry(b: seq<byte>): DirectoryEntry
    requires |b| == ENTRY_SIZE
  {
    DirectoryEntry(FromLe32(b[0..4]), FromLe32(b[4..8]), FromLe32(b[8..12]), FromLeBits32(b[12..16]))
  }

  lemma EntryRoundTrip(e: DirectoryEntry)
    ensures DecodeEntry(EncodeEntry(e)) == e
  {
    hide Le32, FromLe32, LeBits32, FromLeBits32;
    var b := EncodeEntry(e);
    assert b[0..4] == Le32(e.moduleId) && b[4..8] == Le32(e.flashOffset);
    assert b[8..12] == Le32(e.codeSize) && b[12..16] == LeBits32(e.crc);
    Le32RoundTrip(e.moduleId); Le32RoundTrip(e.flashOffset); Le32RoundTrip(e.codeSize);
    LeBits32RoundTrip(e.crc);
  }

  // ---- VFS superblock and asset entries ----

  datatype Superblock = Superblock(assetCount: u16, indexOffset: u32, dataOffset: u32, totalBytes: u32)

  datatype AssetEntry = AssetEntry(assetId: u32, flashOffset: u32, length: u32, flags: u16, crc16: u16)

  function SuperblockBody(s: Superblock): (b: seq<byte>)
    ensures |b| == 20
  {
    VFS_MAGIC + Le16(VFS_VERSION) + Le16(s.assetCount) + Le32(s.indexOffset) + Le32(s.dataOffset) + Le32(s.totalBytes)
  }

  function EncodeSuperblock(s: Superblock): (b: seq<byte>)
    ensures |b| == HEADER_SIZE
  {
    SuperblockBody(s) + LeBits32(Crc32(SuperblockBody(s))) + Zeros(8)
  }

  function DecodeSuperblock(b: seq<byte>): Result<Superblock, VfsError> {
    if |b| < HEADER_SIZE then Err(VfsStorage)
    else if b[0..4] != VFS_MAGIC then Err(VfsInvalidMagic)
    else if FromLe16(b[4..6]) != VFS_VERSION then Err(VfsUnsupportedVersion)
    else if Crc32(b[..20]) != FromLeBits32(b[20..24]) then Err(SuperblockCrcMismatch)
    else Ok(Superblock(FromLe16(b[6..8]), FromLe32(b[8..12]), FromLe32(b[12..16]), FromLe32(b[16..20])))
  }

  lemma SuperblockRoundTrip(s: Superblock)
    ensures DecodeSuperblock(EncodeSuperblock(s)) == Ok(s)
  {
    hide Le16, Le32, FromLe16, FromLe32, LeBits32, FromLeBits32, Crc32;
    var b := EncodeSuperblock(s);
    assert b[..20] == SuperblockBody(s) && b[0..4] == VFS_MAGIC && b[4..6] == Le16(VFS_VERSION);
    assert b[6..8] == Le16(s.assetCount) && b[8..12] == Le32(s.indexOffset);
    assert b[12..16] == Le32(s.dataOffset) && b[16..20] == Le32(s.totalBytes);
    assert b[20..24] == LeBits32(Crc32(SuperblockBody(s)));
    Le16RoundTrip(VFS_VERSION); Le16RoundTrip(s.assetCount);
    Le32RoundTrip(s.indexOffset); Le32RoundTrip(s.dataOffset); Le32RoundTrip(s.totalBytes);
    LeBits32RoundTrip(Crc32(SuperblockBody(s)));
  }

  function EncodeAsset(e: AssetEntry): (b: seq<byte>)
    ensures |b| == ENTRY_SIZE
  {
    Le32(e.assetId) + Le32(e.flashOffset) + Le32(e.length) + Le16(e.flags) + Le16(e.crc16)
  }

  function DecodeAsset(b: seq<byte>): AssetEntry
    requires |b| == ENTRY_SIZE
  {
    AssetEntry(FromLe32(b[0..4]), FromLe32(b[4..8]), FromLe32(b[8..12]), FromLe16(b[12..14]), FromLe16(b[14..16]))
  }

  lemma AssetRoundTrip(e: AssetEntry)
    ensures DecodeAsset(EncodeAsset(e)) == e
  {
    hide Le16, Le32, FromLe16, FromLe32;
    var b := EncodeAsset(e);
    assert b[0..4] == Le32(e.assetId) && b[4..8] == Le32(e.flashOffset) && b[8..12] == Le32(e.length);
    assert b[12..14] == Le16(e.flags) && b[14..16] == Le16(e.crc16);
    Le32RoundTrip(e.assetId); Le32RoundTrip(e.flashOffset); Le32RoundTrip(e.length);
    Le16RoundTrip(e.flags); Le16RoundTrip(e.crc16);
  }
}
