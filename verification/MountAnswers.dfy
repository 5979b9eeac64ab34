/** Exactly when mounting fails, with which error, and what it finds otherwise, whatever storage answers. */
module MountAnswers {
  import opened Bytes
  import opened Crc
  import opened CrcTheory
  import opened Header
  import opened Decoders
  import opened Storage
  import opened Engine

  // ---- The entries of a directory ----

  /** Modules and offsets in the first `n` entries. */
  ghost function EntriesRead(rd: Reader, base: u32, n: nat): (found: seq<(u32, u32)>)
    requires ValidReader(rd)
    ensures |found| == n
  {
    if n == 0 then []
    else
      var e := DecodeEntry(EntryRead(rd, base + 32, n - 1).after);
      EntriesRead(rd, base, n - 1) + [(e.moduleId, e.flashOffset)]
  }

  lemma {:induction false} EntriesReadAt(rd: Reader, base: u32, n: nat, i: nat)
    requires ValidReader(rd) && i < n
    ensures var b := EntryRead(rd, base + 32, i).after; EntriesRead(rd, base, n)[i] == (Word(b, 0), Word(b, 4))
  {
    hide DecodeEntry, EntryRead, Word;
    if i < n - 1 {
      EntriesReadAt(rd, base, n - 1, i);
    } else {
      EntryFields(EntryRead(rd, base + 32, i).after);
    }
  }

  /** One of the entries from the i-th to before the n-th cannot be read. */
  ghost predicate EntryFails(rd: Reader, start: nat, i: nat, n: nat)
    requires ValidReader(rd)
  {
    exists j :: i <= j < n && EntryRead(rd, start, j).Fault?
  }

  lemma FailsStep(rd: Reader, start: nat, i: nat, n: nat)
    requires ValidReader(rd)
    ensures EntryFails(rd, start, i, n) <==>
            i < n && (EntryRead(rd, start, i).Fault? || EntryFails(rd, start, i + 1, n))
  {
    hide EntryRead;
  }

  lemma EntryPlaceWraps(base: u32, i: nat)
    ensures WrapAdd(WrapAdd(base, HEADER_SIZE), i * ENTRY_SIZE) == (base + 32 + 16 * i) % U32
  {
    hide WrapAdd;
    WrapTwice(base, HEADER_SIZE, i * ENTRY_SIZE);
  }

  lemma {:induction false} ScanAnswer(rd: Reader, base: u32, count: u16, max: nat, i: nat)
    requires ValidReader(rd) && i <= count && i <= max
    ensures var n := Least(count, max);
            ScanDirectory(rd, WrapAdd(base, HEADER_SIZE), count, max, i,
                          EntryBuffer(rd, base + 32, i), EntriesRead(rd, base, i))
            == if EntryFails(rd, base + 32, i, n) then Err(OverlayError.Storage) else Ok(EntriesRead(rd, base, n))
    decreases count - i
  {
    hide DecodeEntry, WrapAdd, EntryFails, DecodeDirectory, DecodeHeader;
    FailsStep(rd, base + 32, i, Least(count, max));
    if i < count && i < max {
      EntryPlaceWraps(base, i);
      if EntryRead(rd, base + 32, i).Done? {
        ScanAnswer(rd, base, count, max, i + 1);
      }
    }
  }

  // ---- Discovery ----

  ghost predicate SoundDirectory(b: seq<byte>) {
    |b| >= 20 && DirectoryMark(b) && VersionOne(b) && Crc32(b[..20]) == SEALED
  }

  /**
   * Discovery fails on a first read that fails, on any other magic than the two, on a directory of another
   * version or with a checksum that does not fit, and on a failing read of an entry it needs; in no other
   * case. A directory gives the entries it counts, or as many as the table takes.
   */
  lemma DiscoverAnswer(rd: Reader, base: u32, max: nat)
    requires ValidReader(rd)
    ensures var out := rd(base, Zeros(32));
            var (b, r) := (out.after, Discover(rd, base, max));
            |b| == 32 &&
            var n := Least(Half(b, 6), max);
            && (r == Err(OverlayError.Storage) <==>
                out.Fault? || (SoundDirectory(b) && EntryFails(rd, base + 32, 0, n)))
            && (r == Err(InvalidMagic) <==> out.Done? && !DirectoryMark(b) && !OverlayMark(b))
            && (r == Err(UnsupportedVersion) <==> out.Done? && DirectoryMark(b) && !VersionOne(b))
            && (r == Err(HeaderChecksumMismatch) <==>
                out.Done? && DirectoryMark(b) && VersionOne(b) && Crc32(b[..20]) != SEALED)
            && (r.Ok? <==> out.Done? && (OverlayMark(b) || (SoundDirectory(b) && !EntryFails(rd, base + 32, 0, n))))
            && (out.Done? && SoundDirectory(b) && r.Ok? ==>
                && |r.value| == n
                && forall i :: 0 <= i < n ==>
                     var e := EntryRead(rd, base + 32, i).after; r.value[i] == (Word(e, 0), Word(e, 4)))
  {
    hide DecodeDirectory, ScanDirectory, ScanContainers, WrapAdd, Half, Word, DirectoryMark, OverlayMark, VersionOne;
    hide Crc32, EntryFails, EntryRead, EntriesRead;
    var out := rd(base, Zeros(32));
    var b := out.after;
    MarksAreMagics(b);
    TwoMarks(b);
    DirectoryAnswer(b);
    if out.Done? && SoundDirectory(b) {
      var n := Least(Half(b, 6), max);
      StartOfScan(rd, base);
      ScanAnswer(rd, base, Half(b, 6), max, 0);
      forall i | 0 <= i < n
        ensures var e := EntryRead(rd, base + 32, i).after; EntriesRead(rd, base, n)[i] == (Word(e, 0), Word(e, 4))
      {
        EntriesReadAt(rd, base, n, i);
      }
    }
  }

  lemma TwoMarks(b: seq<byte>)
    ensures !(DirectoryMark(b) && OverlayMark(b))
  {
  }

  lemma StartOfScan(rd: Reader, base: u32)
    requires ValidReader(rd)
    ensures EntryBuffer(rd, base + 32, 0) == Zeros(ENTRY_SIZE) && EntriesRead(rd, base, 0) == []
  {
  }

  // ---- Mounting ----

  /** A mount that fails in discovery fails as discovery does, and registers nothing. */
  lemma MountRefused(reg: Registry, rd: Reader, base: u32, e: OverlayError)
    requires ValidReader(rd) && Discover(rd, base, |reg|) == Err(e)
    ensures MountInto(reg, rd, base) == (reg, Err(e))
  {
    hide Discover;
  }

  /**
   * A directory hit by a burst of at most 32 bits that left its magic alone is not mounted, whatever else
   * is in storage, and the registry stays as it was.
   */
  lemma DamagedDirectoryNotMounted(reg: Registry, rd: Reader, base: u32, b: seq<byte>, k: nat)
    requires ValidReader(rd) && |b| == 32 && DecodeDirectory(b).Ok? && rd(base, Zeros(32)).Done?
    requires var c := rd(base, Zeros(32)).after;
             && |c| == 32 && DirectoryMark(c) && b[..20] != c[..20]
             && AgreeOutside(MessageBits(b[..20]), MessageBits(c[..20]), k, 32)
    ensures MountInto(reg, rd, base)
            == (reg, Err(if VersionOne(rd(base, Zeros(32)).after) then HeaderChecksumMismatch else UnsupportedVersion))
  {
    hide DecodeDirectory, Discover, DirectoryMark, OverlayMark, VersionOne, MessageBits, MountInto, Crc32;
    var c := rd(base, Zeros(32)).after;
    DiscoverAnswer(rd, base, |reg|);
    DirectoryAnswer(b);
    BurstUnseals(b, c, 20, k);
    MountRefused(reg, rd, base, if VersionOne(c) then HeaderChecksumMismatch else UnsupportedVersion);
  }

  /** Erased flash is not mounted. */
  lemma ErasedNotMounted(reg: Registry, flash: seq<byte>, base: u32)
    requires base + 32 <= |flash| && forall i :: base <= i < base + 32 ==> flash[i] == 0xFF
    ensures MountInto(reg, FlashReader(flash), base) == (reg, Err(InvalidMagic))
  {
    hide Discover, MountInto;
    DiscoverAnswer(FlashReader(flash), base, |reg|);
    assert FlashReader(flash)(base, Zeros(32)) == Done(flash[base..base + 32]);
    assert flash[base..base + 32][0] == 0xFF;
    MountRefused(reg, FlashReader(flash), base, InvalidMagic);
  }
}
