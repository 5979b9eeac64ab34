/** What each decoder accepts, what it reports otherwise, and where in the bytes every field lies. */
module Decoders {
  import opened Bytes
  import opened Crc
  import opened CrcTheory
  import opened Header
  import opened Storage

  // ---- Fields, as numbers in the bytes ----

  /** The number in the two bytes at `at`. */
  ghost function Half(b: seq<byte>, at: nat): nat
    requires at + 2 <= |b|
  {
    b[at] as nat + 0x100 * (b[at + 1] as nat)
  }

  /** The number in the four bytes at `at`. */
  ghost function Word(b: seq<byte>, at: nat): nat
    requires at + 4 <= |b|
  {
    b[at] as nat + 0x100 * (b[at + 1] as nat) + 0x1_0000 * (b[at + 2] as nat) + 0x100_0000 * (b[at + 3] as nat)
  }

  lemma HalfAt(b: seq<byte>, at: nat)
    requires at + 2 <= |b|
    ensures FromLe16(b[at..at + 2]) == Half(b, at)
  {
    hide FromLe16;
    LittleEndian16(b[at..at + 2]);
  }

  lemma WordAt(b: seq<byte>, at: nat)
    requires at + 4 <= |b|
    ensures FromLe32(b[at..at + 4]) == Word(b, at)
  {
    hide FromLe32;
    LittleEndian32(b[at..at + 4]);
  }

  /** The stored checksum is that of what precedes it exactly when both together have one constant checksum. */
  lemma StoredCrc(b: seq<byte>, n: nat)
    requires n + 4 <= |b|
    ensures Crc32(b[..n]) == FromLeBits32(b[n..n + 4]) <==> Crc32(b[..n + 4]) == SEALED
  {
    hide Crc32, LeBits32, FromLeBits32;
    var x := FromLeBits32(b[n..n + 4]);
    FromLeBits32RoundTrip(b[n..n + 4]);
    assert b[..n] + b[n..n + 4] == b[..n + 4];
    SealedCheck(b[..n], x);
  }

  // ---- What is accepted, and what is reported otherwise ----

  ghost predicate Starts(b: seq<byte>, m0: byte, m1: byte, m2: byte, m3: byte) {
    |b| >= 4 && b[0] == m0 && b[1] == m1 && b[2] == m2 && b[3] == m3
  }

  ghost predicate VersionOne(b: seq<byte>) {
    |b| >= 6 && b[4] == 1 && b[5] == 0
  }

  /** "OVL1" */
  ghost predicate OverlayMark(b: seq<byte>) {
    Starts(b, 0x4F, 0x56, 0x4C, 0x31)
  }

  /** "OVLD" */
  ghost predicate DirectoryMark(b: seq<byte>) {
    Starts(b, 0x4F, 0x56, 0x4C, 0x44)
  }

  /** "VFS1" */
  ghost predicate SuperblockMark(b: seq<byte>) {
    Starts(b, 0x56, 0x46, 0x53, 0x31)
  }

  lemma MarksAreMagics(b: seq<byte>)
    requires |b| >= 4
    ensures OverlayMark(b) <==> b[0..4] == OVERLAY_MAGIC
    ensures DirectoryMark(b) <==> b[0..4] == DIR_MAGIC
    ensures SuperblockMark(b) <==> b[0..4] == VFS_MAGIC
  {
    var m := b[0..4];
    assert m == [m[0], m[1], m[2], m[3]];
  }

  lemma VersionIs(b: seq<byte>)
    requires |b| >= 6
    ensures FromLe16(b[4..6]) == 1 <==> VersionOne(b)
  {
    hide FromLe16;
    HalfAt(b, 4);
  }

  /** An overlay header, from any bytes: the tests in order, the checksum over all 32, and the fields. */
  lemma HeaderAnswer(b: seq<byte>)
    requires |b| == 32
    ensures var r := DecodeHeader(b);
            && (r == Err(InvalidMagic) <==> !OverlayMark(b))
            && (r == Err(UnsupportedVersion) <==> OverlayMark(b) && !VersionOne(b))
            && (r == Err(HeaderChecksumMismatch) <==> OverlayMark(b) && VersionOne(b) && Crc32(b) != SEALED)
            && (r.Ok? <==> OverlayMark(b) && VersionOne(b) && Crc32(b) == SEALED)
    ensures DecodeHeader(b).Ok? ==>
              var h := DecodeHeader(b).value;
              && h.flags == Half(b, 6) && h.moduleId == Word(b, 8) && h.codeSize == Word(b, 12)
              && h.entryOffset == Word(b, 16) && h.ramTargetAddr == Word(b, 20)
              && LeBits32(h.payloadCrc) == b[24..28]
  {
    hide Crc32, FromLe16, FromLe32, FromLeBits32, LeBits32, OverlayMark, VersionOne, Half, Word;
    MarksAreMagics(b);
    VersionIs(b);
    StoredCrc(b, 28);
    assert b[..32] == b;
    HalfAt(b, 6);
    WordAt(b, 8); WordAt(b, 12); WordAt(b, 16); WordAt(b, 20);
    FromLeBits32RoundTrip(b[24..28]);
  }

  /** The same for a directory header, whose checksum covers its first 16 bytes. */
  lemma DirectoryAnswer(b: seq<byte>)
    requires |b| == 32
    ensures var r := DecodeDirectory(b);
            && (r == Err(InvalidMagic) <==> !DirectoryMark(b))
            && (r == Err(UnsupportedVersion) <==> DirectoryMark(b) && !VersionOne(b))
            && (r == Err(HeaderChecksumMismatch) <==> DirectoryMark(b) && VersionOne(b) && Crc32(b[..20]) != SEALED)
            && (r.Ok? <==> DirectoryMark(b) && VersionOne(b) && Crc32(b[..20]) == SEALED)
    ensures DecodeDirectory(b).Ok? ==>
              var d := DecodeDirectory(b).value;
              d.entryCount == Half(b, 6) && d.indexOffset == Word(b, 8) && d.totalBytes == Word(b, 12)
  {
    hide Crc32, FromLe16, FromLe32, FromLeBits32, DirectoryMark, VersionOne, Half, Word;
    MarksAreMagics(b);
    VersionIs(b);
    StoredCrc(b, 16);
    HalfAt(b, 6);
    WordAt(b, 8); WordAt(b, 12);
  }

  /** And for a VFS superblock, whose checksum covers its first 20 bytes. */
  lemma SuperblockAnswer(b: seq<byte>)
    requires |b| == 32
    ensures var r := DecodeSuperblock(b);
            && (r == Err(VfsInvalidMagic) <==> !SuperblockMark(b))
            && (r == Err(VfsUnsupportedVersion) <==> SuperblockMark(b) && !VersionOne(b))
            && (r == Err(SuperblockCrcMismatch) <==> SuperblockMark(b) && VersionOne(b) && Crc32(b[..24]) != SEALED)
            && (r.Ok? <==> SuperblockMark(b) && VersionOne(b) && Crc32(b[..24]) == SEALED)
    ensures DecodeSuperblock(b).Ok? ==>
              var s := DecodeSuperblock(b).value;
              && s.assetCount == Half(b, 6) && s.indexOffset == Word(b, 8)
              && s.dataOffset == Word(b, 12) && s.totalBytes == Word(b, 16)
  {
    hide Crc32, FromLe16, FromLe32, FromLeBits32, SuperblockMark, VersionOne, Half, Word;
    MarksAreMagics(b);
    VersionIs(b);
    StoredCrc(b, 20);
    HalfAt(b, 6);
    WordAt(b, 8); WordAt(b, 12); WordAt(b, 16);
  }

  /** A buffer that is too short for a record is not looked at. */
  lemma ShortBuffers(b: seq<byte>)
    requires |b| < 32
    ensures DecodeHeader(b) == Err(Storage) && DecodeDirectory(b) == Err(Storage)
    ensures DecodeSuperblock(b) == Err(VfsStorage)
  {
  }

  /** Entries have no tests, only fields. */
  lemma EntryFields(b: seq<byte>)
    requires |b| == 16
    ensures var e := DecodeEntry(b);
            && e.moduleId == Word(b, 0) && e.flashOffset == Word(b, 4) && e.codeSize == Word(b, 8)
            && LeBits32(e.crc) == b[12..16]
  {
    hide FromLe32, FromLeBits32, LeBits32, Word;
    WordAt(b, 0); WordAt(b, 4); WordAt(b, 8);
    FromLeBits32RoundTrip(b[12..16]);
  }

  lemma AssetFields(b: seq<byte>)
    requires |b| == 16
    ensures var e := DecodeAsset(b);
            && e.assetId == Word(b, 0) && e.flashOffset == Word(b, 4) && e.length == Word(b, 8)
            && e.flags == Half(b, 12) && e.crc16 == Half(b, 14)
  {
    hide FromLe16, FromLe32, Half, Word;
    WordAt(b, 0); WordAt(b, 4); WordAt(b, 8);
    HalfAt(b, 12); HalfAt(b, 14);
  }

  // Encoders, which these decoders invert, put every field there.

  lemma EncodedDirectory(d: OverlayDirectory)
    ensures var b := EncodeDirectory(d);
            && DirectoryMark(b) && VersionOne(b) && Crc32(b[..20]) == SEALED
            && Half(b, 6) == d.entryCount && Word(b, 8) == d.indexOffset && Word(b, 12) == d.totalBytes
  {
    hide EncodeDirectory, DecodeDirectory, Crc32, Half, Word, DirectoryMark, VersionOne;
    DirectoryRoundTrip(d);
    DirectoryAnswer(EncodeDirectory(d));
  }

  lemma EncodedEntry(e: DirectoryEntry)
    ensures var b := EncodeEntry(e);
            && Word(b, 0) == e.moduleId && Word(b, 4) == e.flashOffset && Word(b, 8) == e.codeSize
            && b[12..16] == LeBits32(e.crc)
  {
    hide EncodeEntry, DecodeEntry, LeBits32, Word;
    EntryRoundTrip(e);
    EntryFields(EncodeEntry(e));
  }

  lemma EncodedSuperblock(s: Superblock)
    ensures var b := EncodeSuperblock(s);
            && SuperblockMark(b) && VersionOne(b) && Crc32(b[..24]) == SEALED && Half(b, 6) == s.assetCount
            && Word(b, 8) == s.indexOffset && Word(b, 12) == s.dataOffset && Word(b, 16) == s.totalBytes
  {
    hide EncodeSuperblock, DecodeSuperblock, Crc32, Half, Word, SuperblockMark, VersionOne;
    SuperblockRoundTrip(s);
    SuperblockAnswer(EncodeSuperblock(s));
  }

  lemma EncodedAsset(a: AssetEntry)
    ensures var b := EncodeAsset(a);
            && Word(b, 0) == a.assetId && Word(b, 4) == a.flashOffset && Word(b, 8) == a.length
            && Half(b, 12) == a.flags && Half(b, 14) == a.crc16
  {
    hide EncodeAsset, DecodeAsset, Half, Word;
    AssetRoundTrip(a);
    AssetFields(EncodeAsset(a));
  }

  /** And every field of a newly created header is where its decoder looks for it. */
  lemma NewHeaderFields(moduleId: u32, codeSize: u32, entryOffset: u32, ramTargetAddr: u32, payloadCrc: bv32)
    ensures var b := EncodeHeader(NewHeader(moduleId, codeSize, entryOffset, ramTargetAddr, payloadCrc));
            && OverlayMark(b) && VersionOne(b) && Crc32(b) == SEALED && Half(b, 6) == 0
            && Word(b, 8) == moduleId && Word(b, 12) == codeSize && Word(b, 16) == entryOffset
            && Word(b, 20) == ramTargetAddr && b[24..28] == LeBits32(payloadCrc)
  {
    hide EncodeHeader, DecodeHeader, Crc32, LeBits32, Half, Word, OverlayMark, VersionOne;
    var b := EncodeHeader(NewHeader(moduleId, codeSize, entryOffset, ramTargetAddr, payloadCrc));
    NewHeaderRoundTrip(moduleId, codeSize, entryOffset, ramTargetAddr, payloadCrc, []);
    assert b + [] == b;
    HeaderAnswer(b);
  }

  // ---- Damage ----

  /** A burst of at most 32 bits in a sealed prefix breaks the seal. */
  lemma BurstUnseals(b: seq<byte>, c: seq<byte>, n: nat, k: nat)
    requires n <= |b| == |c| && Crc32(b[..n]) == SEALED && b[..n] != c[..n]
    requires AgreeOutside(MessageBits(b[..n]), MessageBits(c[..n]), k, 32)
    ensures Crc32(c[..n]) != SEALED
  {
    hide Crc32, MessageBits;
    BurstDetected(b[..n], c[..n], k);
  }

  /** A directory hit by such a burst is refused, by its checksum if its magic and version survived. */
  lemma BurstDirectoryRefused(b: seq<byte>, c: seq<byte>, k: nat)
    requires |b| == |c| == 32 && DecodeDirectory(b).Ok? && b[..20] != c[..20]
    requires AgreeOutside(MessageBits(b[..20]), MessageBits(c[..20]), k, 32)
    ensures DecodeDirectory(c).Err?
    ensures DirectoryMark(c) && VersionOne(c) ==> DecodeDirectory(c) == Err(HeaderChecksumMismatch)
  {
    hide Crc32, MessageBits, DecodeDirectory, DirectoryMark, VersionOne;
    DirectoryAnswer(b); DirectoryAnswer(c);
    BurstUnseals(b, c, 20, k);
  }

  lemma BurstSuperblockRefused(b: seq<byte>, c: seq<byte>, k: nat)
    requires |b| == |c| == 32 && DecodeSuperblock(b).Ok? && b[..24] != c[..24]
    requires AgreeOutside(MessageBits(b[..24]), MessageBits(c[..24]), k, 32)
    ensures DecodeSuperblock(c).Err?
    ensures SuperblockMark(c) && VersionOne(c) ==> DecodeSuperblock(c) == Err(SuperblockCrcMismatch)
  {
    hide Crc32, MessageBits, DecodeSuperblock, SuperblockMark, VersionOne;
    SuperblockAnswer(b); SuperblockAnswer(c);
    BurstUnseals(b, c, 24, k);
  }

  // ---- Entries read one after another into one buffer ----

  /** What the buffer holds before the i-th entry is read into it. */
  ghost function EntryBuffer(rd: Reader, start: nat, i: nat): (b: seq<byte>)
    requires ValidReader(rd)
    ensures |b| == 16
    decreases i, 0
  {
    if i == 0 then Zeros(16) else EntryRead(rd, start, i - 1).after
  }

  /** The read of the i-th entry, 16 bytes each from `start` on, in u32 arithmetic. */
  ghost function EntryRead(rd: Reader, start: nat, i: nat): (out: ReadOutcome)
    requires ValidReader(rd)
    ensures |out.after| == 16
    decreases i, 1
  {
    rd((start + 16 * i) % U32, EntryBuffer(rd, start, i))
  }
}
