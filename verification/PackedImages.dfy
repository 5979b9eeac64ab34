/** From packed image through mount and load back to the payload. */
module PackedImages {
  import opened Bytes
  import opened Crc
  import opened CrcTheory
  import opened Header
  import opened Storage
  import opened Overlay
  import opened OverlayRuns
  import opened Engine
  import opened RegistryRuns
  import opened Discovery
  import opened Packer

  /** Flash holding the packed image of `ms` at `base`, and anything elsewhere. */
  ghost predicate ImageAt(flash: seq<byte>, base: nat, ms: seq<Module>) {
    base + |Image(ms)| <= |flash| && base + |Image(ms)| < U32 && flash[base..base + |Image(ms)|] == Image(ms)
  }

  /** The file the packer writes is such a flash. */
  lemma PackedFileIsFlash(ms: seq<Module>)
    requires Fits(ms)
    ensures ImageAt(Image(ms), 0, ms)
  {
    hide Container, EncodeDirectory, EntriesOf, Body, IndexBytes;
    var image := Image(ms);
    assert image[0..0 + |image|] == image;
  }

  ghost predicate DistinctModules(ms: seq<Module>) {
    forall i, j :: 0 <= i < j < |ms| ==> ms[i].id != ms[j].id
  }

  // ---- Where everything is ----

  lemma EndFits(ms: seq<Module>)
    requires Fits(ms)
    ensures EndOf(Start(|ms|), ms) <= U32
  {
    hide Container, EndOf, Body, Aligned, Padded;
    StartAligned(|ms|);
    BodyEnds(Start(|ms|), ms);
    PadBound(Start(|ms|), |Body(ms)|);
  }

  lemma StartAligned(count: nat)
    ensures Start(count) % 4 == 0
  {
    assert Start(count) == 4 * (8 + 4 * count);
  }

  lemma PadBound(at: nat, n: nat)
    requires at % 4 == 0 && at + n < U32
    ensures at + Padded(n) <= U32
  {
  }

  /** The i-th module's container, by the offset its directory entry gives. */
  lemma EntryPlace(ms: seq<Module>, i: nat)
    requires Fits(ms) && i < |ms|
    ensures EndOf(Start(|ms|), ms) <= U32
    ensures var e := EntriesOf(ms)[i];
            (e.moduleId, e.flashOffset) == Places(Start(|ms|), ms)[i] && e.flashOffset == EndOf(Start(|ms|), ms[..i])
  {
    hide Container, EndOf, Body, Places, Aligned, EntriesOf, Padded;
    hide Start;
    EndFits(ms);
    EntryIs(ms, i);
    StartAligned(|ms|);
    BodyEnds(Start(|ms|), ms[..i]);
    PlaceAt(Start(|ms|), ms, i);
  }

  lemma {:induction false} IndexSlice(es: seq<DirectoryEntry>, i: nat)
    requires i < |es|
    ensures IndexBytes(es)[ENTRY_SIZE * i..ENTRY_SIZE * i + ENTRY_SIZE] == EncodeEntry(es[i])
    decreases |es|
  {
    hide EncodeEntry;
    var n := |es| - 1;
    if i < n {
      IndexSlice(es[..n], i);
      SliceOfPrefix(IndexBytes(es[..n]), IndexBytes(es), ENTRY_SIZE * i, ENTRY_SIZE * i + ENTRY_SIZE);
    } else {
      SliceOfSuffix(IndexBytes(es[..n]), EncodeEntry(es[n]));
    }
  }

  lemma Shifted(flash: seq<byte>, base: nat, image: seq<byte>, lo: nat, hi: nat)
    requires base + |image| <= |flash| && flash[base..base + |image|] == image && lo <= hi <= |image|
    ensures flash[base + lo..base + hi] == image[lo..hi]
  {
    forall k | 0 <= k < hi - lo ensures flash[base + lo..base + hi][k] == image[lo..hi][k] {
      assert flash[base..base + |image|][lo + k] == image[lo + k];
    }
  }

  lemma Middle(a: seq<byte>, b: seq<byte>, c: seq<byte>, lo: nat, hi: nat)
    requires lo <= hi <= |b|
    ensures (a + b + c)[|a| + lo..|a| + hi] == b[lo..hi]
  {
  }

  lemma ImageHead(flash: seq<byte>, base: nat, ms: seq<Module>)
    requires Fits(ms) && ImageAt(flash, base, ms)
    ensures base + HEADER_SIZE <= |flash| && base + HEADER_SIZE < U32
    ensures flash[base..base + HEADER_SIZE] == EncodeDirectory(DirectoryOf(ms))
  {
    hide EncodeEntry, EncodeDirectory, Container, Body, IndexBytes, EntriesOf;
    var image := Image(ms);
    Shifted(flash, base, image, 0, HEADER_SIZE);
    assert image[0..HEADER_SIZE] == EncodeDirectory(DirectoryOf(ms));
  }

  lemma ImageEntry(flash: seq<byte>, base: nat, ms: seq<Module>, i: nat, o: nat)
    requires Fits(ms) && ImageAt(flash, base, ms) && i < |ms| && o == HEADER_SIZE + ENTRY_SIZE * i
    ensures base + o + ENTRY_SIZE <= |flash| && base + o + ENTRY_SIZE < U32
    ensures flash[base + o..base + o + ENTRY_SIZE] == EncodeEntry(EntriesOf(ms)[i])
  {
    hide EncodeEntry, EncodeDirectory, Container, Body, IndexBytes, EntriesOf;
    IndexSlice(EntriesOf(ms), i);
    var d, x, body := EncodeDirectory(DirectoryOf(ms)), IndexBytes(EntriesOf(ms)), Body(ms);
    Middle(d, x, body, ENTRY_SIZE * i, ENTRY_SIZE * i + ENTRY_SIZE);
    Shifted(flash, base, Image(ms), o, o + ENTRY_SIZE);
  }

  lemma ImageContainer(flash: seq<byte>, base: nat, ms: seq<Module>, i: nat)
    requires Fits(ms) && ImageAt(flash, base, ms) && i < |ms|
    ensures var o, size := EntriesOf(ms)[i].flashOffset, HEADER_SIZE + |ms[i].code|;
            && o + size <= |Image(ms)| && base + o + size <= |flash| && base + o + size < U32
            && flash[base + o..base + o + size] == Container(ms[i])
  {
    hide EncodeEntry, EncodeDirectory, Container, Body, IndexBytes, EntriesOf, Aligned;
    EntryIs(ms, i);
    BodyGrows(ms, i);
    var front, body := EncodeDirectory(DirectoryOf(ms)) + IndexBytes(EntriesOf(ms)), Body(ms);
    var o, size := |Aligned(Body(ms[..i]))|, HEADER_SIZE + |ms[i].code|;
    Middle(front, body, [], o, o + size);
    assert front + body + [] == Image(ms);
    Shifted(flash, base, Image(ms), |front| + o, |front| + o + size);
  }

  /** Containers lie on multiples of four, in order and apart, inside the image. */
  lemma ContainersApart(ms: seq<Module>, i: nat, j: nat)
    requires Fits(ms) && i < j < |ms|
    ensures var a, b := EntriesOf(ms)[i].flashOffset, EntriesOf(ms)[j].flashOffset;
            && Start(|ms|) <= a && a % 4 == 0 && b % 4 == 0
            && a + HEADER_SIZE + |ms[i].code| <= b && b + HEADER_SIZE + |ms[j].code| <= |Image(ms)|
  {
    hide Container, Body, Places, Padded, EndOf, Aligned, EntriesOf, Image;
    EntryIs(ms, j);
    hide Start;
    var at := Start(|ms|);
    StartAligned(|ms|);
    EntryPlace(ms, i); EntryPlace(ms, j);
    EndOfAligned(at, ms[..i]); EndOfAligned(at, ms[..j]);
    PlaceAt(at, ms, i);
    BodyGrows(ms, j);
    EndGrows(at, ms[..j], i + 1);
    assert ms[..j][..i + 1] == ms[..i + 1];
  }

  lemma {:induction false} EndGrows(at: nat, ms: seq<Module>, k: nat)
    requires k <= |ms|
    ensures EndOf(at, ms[..k]) <= EndOf(at, ms)
    decreases |ms|
  {
    hide Padded;
    if k > 0 {
      EndGrows(at + Padded(HEADER_SIZE + |ms[0].code|), ms[1..], k - 1);
      assert ms[..k][1..] == ms[1..][..k - 1];
    }
  }

  /** The checksum of a directory entry depends on the payload alone. */
  lemma EntryCrcIsPayloads(ms: seq<Module>, i: nat)
    requires Fits(ms) && i < |ms|
    ensures EntriesOf(ms)[i].crc == Complement(Update(RESIDUE, ms[i].code))
  {
    hide DecodeHeader, EncodeHeader, HeaderOf, Update, Complement, Crc32, Aligned, Body;
    HeaderOfDecodes(ms[i]);
    ContainerCrcIgnoresHeader(EncodeHeader(HeaderOf(ms[i])), EncodeHeader(HeaderOf(ms[i])), ms[i].code);
  }

  // ---- Mounting ----

  /** Identifiers and offsets as the directory lists them. */
  ghost function ImagePlaces(ms: seq<Module>): (p: seq<(u32, u32)>)
    requires Fits(ms)
    ensures |p| == |ms|
  {
    EndFits(ms);
    Places(Start(|ms|), ms)
  }

  lemma PlaceOfEntry(ms: seq<Module>, i: nat)
    requires Fits(ms) && i < |ms|
    ensures ImagePlaces(ms)[i] == (ms[i].id, EntriesOf(ms)[i].flashOffset)
    ensures ImagePlaces(ms)[i].0 == EntriesOf(ms)[i].moduleId
  {
    hide Container, EndOf, Body, Places, Aligned, EntriesOf, Padded;
    EntryPlace(ms, i);
    EntryIs(ms, i);
  }

  lemma {:induction false} ScanReadsDirectory(flash: seq<byte>, base: u32, start: u32, ms: seq<Module>,
                                              max: nat, i: nat, buf: seq<byte>)
    requires Fits(ms) && ImageAt(flash, base, ms) && start == base + HEADER_SIZE
    requires i <= |ms| && i <= max && |buf| == ENTRY_SIZE
    ensures ScanDirectory(FlashReader(flash), start, |ms|, max, i, buf, ImagePlaces(ms)[..i])
            == Ok(ImagePlaces(ms)[..if |ms| < max then |ms| else max])
    decreases |ms| - i
  {
    hide EncodeEntry, DecodeEntry, ImageAt, ImagePlaces, EntriesOf, Fits, WrapAdd;
    if i < |ms| && i < max {
      var next := EncodeEntry(EntriesOf(ms)[i]);
      ScanReadsDirectory(flash, base, start, ms, max, i + 1, next);
      var o := HEADER_SIZE + ENTRY_SIZE * i;
      ImageEntry(flash, base, ms, i, o);
      PlaceOfEntry(ms, i);
      EntryRoundTrip(EntriesOf(ms)[i]);
      NoWrap(start, i * ENTRY_SIZE);
      var rd := FlashReader(flash);
      assert rd(base + o, buf) == Done(next);
      var all := ImagePlaces(ms);
      assert all[..i + 1] == all[..i] + [all[i]];
    }
  }

  lemma NoWrap(a: nat, b: nat)
    requires a + b < U32
    ensures WrapAdd(a, b) == a + b
  {
  }

  /** A directory is read whole, or as far as the table reaches. */
  lemma DirectoryDiscovery(flash: seq<byte>, base: u32, ms: seq<Module>, max: nat)
    requires Fits(ms) && ImageAt(flash, base, ms)
    ensures Discover(FlashReader(flash), base, max) == Ok(ImagePlaces(ms)[..if |ms| < max then |ms| else max])
  {
    hide Discover, EncodeDirectory, DecodeDirectory, ImagePlaces, ScanDirectory, WrapAdd, ImageAt, Fits, DirectoryOf,
         FlashRead;
    ImageHead(flash, base, ms);
    FlashGives(flash, base, HEADER_SIZE);
    var dir := DirectoryOf(ms);
    SmallCount(ms);
    DirectoryRoundTrip(dir);
    ScanReadsDirectory(flash, base, base + HEADER_SIZE, ms, max, 0, Zeros(ENTRY_SIZE));
    assert ImagePlaces(ms)[..0] == [];
    var rd := FlashReader(flash);
    NoWrap(base, HEADER_SIZE);
    DirectoryBranch(rd, base, max, EncodeDirectory(dir), dir);
  }

  lemma SmallCount(ms: seq<Module>)
    requires Fits(ms)
    ensures |ms| < U16 && DirectoryOf(ms).entryCount == |ms|
  {
    hide Container, Body, Offset;
  }

  lemma FlashGives(flash: seq<byte>, o: nat, n: nat)
    requires o + n <= |flash|
    ensures FlashReader(flash)(o, Zeros(n)) == Done(flash[o..o + n])
  {
  }

  lemma DirectoryBranch(rd: Reader, base: u32, max: nat, b: seq<byte>, dir: OverlayDirectory)
    requires ValidReader(rd) && rd(base, Zeros(HEADER_SIZE)) == Done(b)
    requires |b| == HEADER_SIZE && b[0..4] == DIR_MAGIC && DecodeDirectory(b) == Ok(dir)
    ensures Discover(rd, base, max)
            == ScanDirectory(rd, WrapAdd(base, HEADER_SIZE), dir.entryCount, max, 0, Zeros(ENTRY_SIZE), [])
  {
    hide DecodeHeader, DecodeDirectory, ScanDirectory, ScanContainers, WrapAdd;
  }

  /** Every module is registered, at `at`, and its container lies `base` above that. */
  ghost predicate RegisteredRelative(reg: Registry, flash: seq<byte>, base: u32, ms: seq<Module>)
    requires AllPackable(ms)
  {
    forall i :: 0 <= i < |ms| ==>
      && FindOffsetIn(reg, ms[i].id).Some?
      && var at, size := base + FindOffsetIn(reg, ms[i].id).value, HEADER_SIZE + |ms[i].code|;
         at + size <= |flash| && at + size < U32 && flash[at..at + size] == Container(ms[i])
  }

  /**
   * Mounting a packed image into an empty table that can hold it registers exactly its modules. The
   * offsets registered are counted from the start of the image whatever the base, while the
   * containers lie that far above the base: they are the containers' own offsets exactly at base 0.
   */
  lemma MountPacked(flash: seq<byte>, base: u32, ms: seq<Module>, max: nat)
    requires Fits(ms) && DistinctModules(ms) && |ms| <= max && ImageAt(flash, base, ms)
    ensures var (reg, r) := MountInto(EmptyRegistry(max), FlashReader(flash), base);
            r == Ok(|ms|) && HoldsExactly(reg, ImagePlaces(ms)) && RegisteredRelative(reg, flash, base, ms)
  {
    hide Discover, RegisterAll, FindOffsetIn, ImagePlaces, Container, Image, EntriesOf, ImageAt, Fits;
    DirectoryDiscovery(flash, base, ms, max);
    var found := ImagePlaces(ms);
    assert found[..|ms|] == found;
    forall i | 0 <= i < |ms|
      ensures found[i].0 == ms[i].id
      ensures var at, size := base + found[i].1, HEADER_SIZE + |ms[i].code|;
              at + size <= |flash| && at + size < U32 && flash[at..at + size] == Container(ms[i])
    {
      PlaceOfEntry(ms, i);
      ImageContainer(flash, base, ms, i);
    }
    BatchRegisters(max, found);
  }

  // ---- Loading ----

  /** Slot `v` would be chosen now, and can take module `x`. */
  ghost predicate Takes(m: Manager, v: nat, x: Module) {
    && Shaped(m) && Find(m, x.id).None? && SelectSlot(m.slots) == Some(v) && v < |m.slots|
    && |x.code| <= m.slots[v].capacity && ThumbAligned(m.slots[v].execAddr, x.entryOffset)
  }

  /** Loading from offset `o` makes `x` resident in slot `v`, its payload in RAM and no other RAM changed. */
  ghost predicate LoadsAt(m: Manager, v: nat, x: Module, flash: seq<byte>, o: u32)
    requires Shaped(m) && v < |m.slots| && |x.code| <= |m.rams[v]|
  {
    var (d, r) := EnsureResident(m, x.id, o, FlashReader(flash), FlashReader(flash));
    && r == Ok(v) && d.slots[v].resident == Some(x.id) && d.slots[v].entryOffset == x.entryOffset
    && d.rams == m.rams[v := x.code + m.rams[v][|x.code|..]]
  }

  lemma TakesRoom(m: Manager, v: nat, x: Module)
    requires Takes(m, v, x)
    ensures Shaped(m) && v < |m.slots| && |x.code| <= |m.rams[v]|
  {
  }

  lemma AdmitsContainer(m: Manager, v: nat, x: Module)
    requires Packable(x) && Takes(m, v, x)
    ensures Admit(m, x.id, EncodeHeader(HeaderOf(x))) == Ok(Ticket(v, HeaderOf(x)))
  {
    hide DecodeHeader, HeaderOf, Crc32, FindFrom, SelectSlot, EncodeHeader;
    HeaderOfDecodes(x);
    HeaderOfFields(x);
  }

  lemma StreamsPayload(m: Manager, t: Ticket, id: u32, code: seq<byte>, flash: seq<byte>, o: u32)
    requires Shaped(m) && t.slot < |m.slots| && |code| <= |m.rams[t.slot]| && o + HEADER_SIZE < U32
    requires t.header.codeSize == |code| && t.header.payloadCrc == Crc32(code)
    requires o + HEADER_SIZE + |code| <= |flash| && flash[o + HEADER_SIZE..o + HEADER_SIZE + |code|] == code
    ensures var (d, r) := LoadAdmitted(m, id, o, t, FlashReader(flash));
            && r == Ok(t.slot) && d.slots[t.slot].resident == Some(id)
            && d.slots[t.slot].entryOffset == t.header.entryOffset
            && d.rams == m.rams[t.slot := code + m.rams[t.slot][|code|..]]
  {
    hide DecodeHeader, Crc32, WrapAdd;
    NoWrap(o, HEADER_SIZE);
    var rd, n := FlashReader(flash), |code|;
    assert rd(o + HEADER_SIZE, m.rams[t.slot][..n]) == Done(code);
    assert Overwrite(m, t.slot, code).rams[t.slot][..n] == code;
  }

  /** A container anywhere in flash loads into the chosen slot. */
  lemma LoadContainer(m: Manager, v: nat, x: Module, flash: seq<byte>, o: u32)
    requires Packable(x) && Takes(m, v, x) && o + HEADER_SIZE < U32
    requires o + HEADER_SIZE + |x.code| <= |flash| && flash[o..o + HEADER_SIZE + |x.code|] == Container(x)
    ensures Shaped(m) && v < |m.slots| && |x.code| <= |m.rams[v]| && LoadsAt(m, v, x, flash, o)
  {
    hide DecodeHeader, Container, HeaderOf, Crc32, FindFrom, SelectSlot, EncodeHeader, Admit, LoadAdmitted;
    TakesRoom(m, v, x);
    ContainerHeader(flash, o, x);
    AdmitsContainer(m, v, x);
    HeaderOfFields(x);
    StreamsPayload(m, Ticket(v, HeaderOf(x)), x.id, x.code, flash, o);
    var rd := FlashReader(flash);
    assert rd(o, Zeros(HEADER_SIZE)) == Done(flash[o..o + HEADER_SIZE]);
  }

  /**
   * Pack, mount at 0, load: for any modules with distinct identifiers that fit the image and the
   * table, any of them loads, at the offset the registry gives, as exactly its original payload.
   */
  lemma PackMountLoad(flash: seq<byte>, ms: seq<Module>, max: nat, i: nat, m: Manager, v: nat)
    requires Fits(ms) && DistinctModules(ms) && |ms| <= max && ImageAt(flash, 0, ms)
    requires i < |ms| && Takes(m, v, ms[i])
    ensures Shaped(m) && v < |m.slots| && |ms[i].code| <= |m.rams[v]|
    ensures var (reg, mounted) := MountInto(EmptyRegistry(max), FlashReader(flash), 0);
            && mounted == Ok(|ms|) && FindOffsetIn(reg, ms[i].id).Some?
            && LoadsAt(m, v, ms[i], flash, FindOffsetIn(reg, ms[i].id).value)
  {
    hide MountInto, FindOffsetIn, Container, Image, EndOf, Places, LoadsAt, Takes, EntriesOf, Body;
    hide ImageAt, HoldsExactly, ImagePlaces;
    MountPacked(flash, 0, ms, max);
    var reg := MountInto(EmptyRegistry(max), FlashReader(flash), 0).0;
    LoadContainer(m, v, ms[i], flash, FindOffsetIn(reg, ms[i].id).value);
  }

  // ---- Entry offsets are not checked ----

  /**
   * A container whose entry offset is not below its code size loads like any other, and the call that
   * follows is let through, to start outside the payload: wherever the slot lies, the branch target is
   * inside the payload if and only if the entry offset is below the code size.
   */
  lemma EntryOutsidePayloadRuns(m: Manager, v: nat, x: Module, flash: seq<byte>, o: u32)
    requires Packable(x) && Takes(m, v, x) && o + HEADER_SIZE < U32
    requires o + HEADER_SIZE + |x.code| <= |flash| && flash[o..o + HEADER_SIZE + |x.code|] == Container(x)
    requires m.slots[v].execAddr + m.slots[v].capacity <= U32
    ensures var d := EnsureResident(m, x.id, o, FlashReader(flash), FlashReader(flash)).0;
            && CheckCall(d, v, x.id) == Ok(())
            && (d.slots[v].execAddr <= BranchTarget(d.slots[v]) < d.slots[v].execAddr + |x.code|
                <==> x.entryOffset < |x.code|)
  {
    hide Container, Takes, EnsureResident, WrapAdd;
    TakesRoom(m, v, x);
    LoadContainer(m, v, x, flash, o);
    SameAddress(m, x.id, o, FlashReader(flash), v);
    EntryWithinIff(EnsureResident(m, x.id, o, FlashReader(flash), FlashReader(flash)).0.slots[v], |x.code|);
  }

  lemma SameAddress(m: Manager, id: u32, o: u32, rd: Reader, i: nat)
    requires Shaped(m) && ValidReader(rd) && i < |m.slots|
    ensures EnsureResident(m, id, o, rd, rd).0.slots[i].execAddr == m.slots[i].execAddr
  {
    hide Crc32, DecodeHeader, SelectSlot, FindFrom;
  }

  /** One such: 64 bytes of code with entry offset 4096, in a slot of 64 bytes. The call starts 4096 bytes on. */
  lemma EntryOutsideSlot()
    ensures var x := Module(7, 0x1000, 0, Zeros(64));
            var m := Manager([NewSlot(0, 64)], [Zeros(64)], 0, map[], 0);
            var rd := FlashReader(Container(x));
            Shaped(m) &&
            var d := EnsureResident(m, 7, 0, rd, rd).0;
            CheckCall(d, 0, 7) == Ok(()) && BranchTarget(d.slots[0]) == 0x1000
  {
    hide Container, EnsureResident, Crc32;
    var x := Module(7, 0x1000, 0, Zeros(64));
    var m := Manager([NewSlot(0, 64)], [Zeros(64)], 0, map[], 0);
    var flash := Container(x);
    assert flash[0..|flash|] == flash;
    assert Takes(m, 0, x);
    LoadContainer(m, 0, x, flash, 0);
    SameAddress(m, 7, 0, FlashReader(flash), 0);
  }

  // ---- Other bases ----

  /**
   * A packed image that starts at or beyond its own length in erased flash mounts, but nothing it
   * registers loads: every registered offset points below the image, at bytes that are no header.
   */
  lemma MountedHigherDoesNotLoad(flash: seq<byte>, base: u32, ms: seq<Module>, max: nat, i: nat, m: Manager)
    requires Fits(ms) && DistinctModules(ms) && |ms| <= max && ImageAt(flash, base, ms) && |Image(ms)| <= base
    requires flash[..base] == Erased(base) && i < |ms| && Shaped(m) && Find(m, ms[i].id).None?
    ensures var (reg, mounted) := MountInto(EmptyRegistry(max), FlashReader(flash), base);
            && mounted == Ok(|ms|) && FindOffsetIn(reg, ms[i].id).Some?
            && EnsureResident(m, ms[i].id, FindOffsetIn(reg, ms[i].id).value, FlashReader(flash), FlashReader(flash))
               == (m, Err(InvalidMagic))
  {
    hide MountInto, FindOffsetIn, Container, Image, EndOf, Places, EntriesOf, Body, ImageAt, ImagePlaces,
         EnsureResident;
    MountPacked(flash, base, ms, max);
    ImageContainer(flash, base, ms, i);
    PlaceOfEntry(ms, i);
    var o := EntriesOf(ms)[i].flashOffset;
    assert o + HEADER_SIZE <= base <= |flash|;
    assert flash[o..o + HEADER_SIZE] == flash[..base][o..o + HEADER_SIZE] == Erased(HEADER_SIZE);
    ErasedDoesNotLoad(m, ms[i].id, flash, o);
  }

  lemma ErasedDoesNotLoad(m: Manager, id: u32, flash: seq<byte>, o: u32)
    requires Shaped(m) && Find(m, id).None? && o + HEADER_SIZE <= |flash|
    requires flash[o..o + HEADER_SIZE] == Erased(HEADER_SIZE)
    ensures EnsureResident(m, id, o, FlashReader(flash), FlashReader(flash)) == (m, Err(InvalidMagic))
  {
    hide Crc32, FindFrom, SelectSlot, LoadAdmitted;
    FlashGives(flash, o, HEADER_SIZE);
    assert Erased(HEADER_SIZE)[0..4][0] == 0xFF;
    assert OVERLAY_MAGIC[0] == 0x4F;
  }
}
