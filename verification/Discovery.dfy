/** What mounting finds: on arbitrary bytes, and in containers laid end to end. */
module Discovery {
  import opened Bytes
  import opened Crc
  import opened Header
  import opened Storage
  import opened Engine
  import opened RegistryRuns

  // ---- The distance between containers ----

  /** Rounded up to a multiple of four. */
  function Padded(n: nat): (p: nat)
    ensures n <= p <= n + 3
  {
    n + (4 - n % 4) % 4
  }

  lemma PaddedAligned(n: nat)
    ensures Padded(n) % 4 == 0
  {
  }

  /** The u32 step clears the container it starts from exactly when header, code and rounding fit a u32. */
  lemma StepClearsContainer(codeSize: u32)
    ensures ContainerStep(codeSize) >= HEADER_SIZE + codeSize <==> HEADER_SIZE + codeSize + 3 < U32
    ensures HEADER_SIZE + codeSize + 3 < U32 ==> ContainerStep(codeSize) == Padded(HEADER_SIZE + codeSize)
  {
    if HEADER_SIZE + codeSize + 3 < U32 {
      var n, s := HEADER_SIZE + codeSize, HEADER_SIZE + codeSize + 3;
      assert WrapAdd(HEADER_SIZE + 3, codeSize) == s;
    } else {
      assert WrapAdd(HEADER_SIZE + 3, codeSize) == HEADER_SIZE + 3 + codeSize - U32;
    }
  }

  lemma StepReaches(at: u32, codeSize: u32)
    requires at + Padded(HEADER_SIZE + codeSize) < U32
    ensures WrapAdd(at, ContainerStep(codeSize)) == at + Padded(HEADER_SIZE + codeSize)
  {
    StepClearsContainer(codeSize);
  }

  /** What the step is: the padded size, or, past 2^32, what is left of it, at most 32. */
  lemma StepIs(codeSize: u32)
    ensures var s := HEADER_SIZE + 3 + codeSize;
            ContainerStep(codeSize) == if s < U32 then Padded(HEADER_SIZE + codeSize) else (s - U32) / 4 * 4
  {
    var s := HEADER_SIZE + 3 + codeSize;
    StepClearsContainer(codeSize);
    if s >= U32 {
      assert WrapAdd(HEADER_SIZE + 3, codeSize) == s - U32;
    }
  }

  /** The code sizes, four of them, whose step is nothing. */
  predicate StandsStill(codeSize: u32) {
    U32 - 35 <= codeSize < U32 - 31
  }

  /** A step stays where it is, from any offset, exactly for those code sizes. */
  lemma StallsIff(at: u32, codeSize: u32)
    ensures WrapAdd(at, ContainerStep(codeSize)) == at <==> StandsStill(codeSize)
  {
    StepIs(codeSize);
    WrapAddIs(at, ContainerStep(codeSize));
  }

  lemma WrapAddIs(a: u32, b: u32)
    ensures WrapAdd(a, b) == if a + b < U32 then a + b else a + b - U32
  {
  }

  /**
   * A step ends past the header it starts from if no sum overflows, or if the size overflows so far that
   * one whole header is left of it.
   */
  predicate Rises(at: u32, codeSize: u32) {
    || (HEADER_SIZE + codeSize + 3 < U32 && at + Padded(HEADER_SIZE + codeSize) < U32)
    || (codeSize >= U32 - 3 && at + HEADER_SIZE < U32)
  }

  lemma RisesIff(at: u32, codeSize: u32)
    ensures WrapAdd(at, ContainerStep(codeSize)) >= at + HEADER_SIZE <==> Rises(at, codeSize)
  {
    StepIs(codeSize);
    WrapAddIs(at, ContainerStep(codeSize));
  }

  // ---- Arbitrary bytes ----

  ghost predicate HeaderAt(flash: seq<byte>, o: nat) {
    o + HEADER_SIZE <= |flash| && DecodeHeader(flash[o..o + HEADER_SIZE]).Ok?
  }

  ghost function ReadHeaderAt(flash: seq<byte>, o: nat): OverlayHeader
    requires HeaderAt(flash, o)
  {
    DecodeHeader(flash[o..o + HEADER_SIZE]).value
  }

  ghost function NextAfter(flash: seq<byte>, o: nat): u32
    requires HeaderAt(flash, o)
  {
    WrapAdd(o, ContainerStep(ReadHeaderAt(flash, o).codeSize))
  }

  /** Valid headers, each where the one before it points. */
  ghost predicate Chain(flash: seq<byte>, at: u32, found: seq<(u32, u32)>)
    decreases |found|
  {
    found == [] ||
    (HeaderAt(flash, at) && found[0] == (ReadHeaderAt(flash, at).moduleId, at)
     && Chain(flash, NextAfter(flash, at), found[1..]))
  }

  /** Where a chain points at its end. */
  ghost function ChainEnd(flash: seq<byte>, at: u32, found: seq<(u32, u32)>): u32
    requires Chain(flash, at, found)
    decreases |found|
  {
    if found == [] then at else ChainEnd(flash, NextAfter(flash, at), found[1..])
  }

  lemma {:induction false} ScanFollowsChain(flash: seq<byte>, at: u32, max: nat, found: seq<(u32, u32)>)
    returns (more: seq<(u32, u32)>)
    requires at + HEADER_SIZE <= |flash| && |found| <= max
    ensures ScanContainers(FlashReader(flash), flash[at..at + HEADER_SIZE], at, max, found) == found + more
    ensures Chain(flash, at, more) && |found| + |more| <= max
    ensures |found| + |more| < max ==> !HeaderAt(flash, ChainEnd(flash, at, more))
    decreases max - |found|
  {
    hide DecodeHeader, ContainerStep;
    if |found| == max || !HeaderAt(flash, at) {
      more := [];
      assert found + [] == found;
    } else {
      var h, next := ReadHeaderAt(flash, at), NextAfter(flash, at);
      var e := (h.moduleId, at);
      var rest: seq<(u32, u32)> := [];
      if next + HEADER_SIZE <= |flash| && flash[next..next + HEADER_SIZE][0..4] == OVERLAY_MAGIC {
        rest := ScanFollowsChain(flash, next, max, found + [e]);
      } else if next + HEADER_SIZE <= |flash| {
        WrongMagicRejected(flash[next..next + HEADER_SIZE]);
      }
      more := [e] + rest;
      assert more[1..] == rest && (found + [e]) + rest == found + more;
    }
  }

  lemma WrongMagicRejected(b: seq<byte>)
    requires |b| == HEADER_SIZE && b[0..4] != OVERLAY_MAGIC
    ensures DecodeHeader(b).Err?
  {
  }

  /**
   * On any bytes at all, sequential discovery ends within the table's size with the chain of valid
   * headers from the base, cut short only by the table.
   */
  lemma DiscoveryIsLongestChain(flash: seq<byte>, base: u32, max: nat) returns (found: seq<(u32, u32)>)
    requires base + HEADER_SIZE <= |flash| && flash[base..base + 4] == OVERLAY_MAGIC
    ensures Discover(FlashReader(flash), base, max) == Ok(found)
    ensures Chain(flash, base, found) && |found| <= max
    ensures |found| < max ==> !HeaderAt(flash, ChainEnd(flash, base, found))
  {
    hide DecodeHeader, ContainerStep, ScanContainers;
    found := ScanFollowsChain(flash, base, max, []);
    assert [] + found == found;
    assert flash[base..base + HEADER_SIZE][0..4] == flash[base..base + 4];
    var rd := FlashReader(flash);
    assert rd(base, Zeros(HEADER_SIZE)) == Done(flash[base..base + HEADER_SIZE]);
  }

  /**
   * Consecutive finds: the second is where the first's container, padded, ends while no sum leaves u32;
   * it lies past the first's header, or at the first itself, exactly for the sizes the predicates say.
   */
  lemma {:induction false} ChainRises(flash: seq<byte>, at: u32, found: seq<(u32, u32)>, i: nat)
    requires Chain(flash, at, found) && i + 1 < |found|
    ensures HeaderAt(flash, found[i].1)
    ensures var (o, size, next) := (found[i].1, ReadHeaderAt(flash, found[i].1).codeSize, found[i + 1].1);
            && next == NextAfter(flash, o)
            && (o + Padded(HEADER_SIZE + size) < U32 ==> next == o + Padded(HEADER_SIZE + size))
            && (next >= o + HEADER_SIZE <==> Rises(o, size))
            && (next == o <==> StandsStill(size))
    decreases i
  {
    hide DecodeHeader;
    if i > 0 {
      ChainRises(flash, NextAfter(flash, at), found[1..], i - 1);
    } else {
      hide ContainerStep, Padded, WrapAdd, HeaderAt, ReadHeaderAt, Rises, StandsStill;
      assert Chain(flash, NextAfter(flash, at), found[1..]);
      var size := ReadHeaderAt(flash, at).codeSize;
      if at + Padded(HEADER_SIZE + size) < U32 {
        StepReaches(at, size);
      }
      RisesIff(at, size);
      StallsIff(at, size);
    }
  }

  /** The first header is found again and again until the table is full exactly for four code sizes. */
  lemma WrappingStepStalls(flash: seq<byte>, base: u32, max: nat)
    requires HeaderAt(flash, base) && max >= 2
    ensures var h := ReadHeaderAt(flash, base);
            Discover(FlashReader(flash), base, max) == Ok(seq(max, _ => (h.moduleId, base)))
            <==> StandsStill(h.codeSize)
  {
    hide DecodeHeader, ScanContainers, Discover, StandsStill, NextAfter, ReadHeaderAt;
    HeaderMagic(flash, base);
    var found := DiscoveryIsLongestChain(flash, base, max);
    var size := ReadHeaderAt(flash, base).codeSize;
    if StandsStill(size) {
      StallFills(flash, base, max);
    } else if |found| >= 2 {
      ChainRises(flash, base, found, 0);
    }
  }

  lemma StallFills(flash: seq<byte>, base: u32, max: nat)
    requires HeaderAt(flash, base) && StandsStill(ReadHeaderAt(flash, base).codeSize)
    ensures Discover(FlashReader(flash), base, max)
            == Ok(seq(max, _ => (ReadHeaderAt(flash, base).moduleId, base)))
  {
    hide DecodeHeader, ScanContainers, StandsStill;
    var b := flash[base..base + HEADER_SIZE];
    assert b[0..4] == OVERLAY_MAGIC by {
      if b[0..4] != OVERLAY_MAGIC { WrongMagicRejected(b); }
    }
    var rd := FlashReader(flash);
    assert rd(base, Zeros(HEADER_SIZE)) == Done(b);
    ScanStalls(flash, base, max, 0);
    assert seq(0, _ => (ReadHeaderAt(flash, base).moduleId, base)) == [];
  }

  lemma {:induction false} ScanStalls(flash: seq<byte>, at: u32, max: nat, k: nat)
    requires HeaderAt(flash, at) && StandsStill(ReadHeaderAt(flash, at).codeSize) && k <= max
    ensures var e := (ReadHeaderAt(flash, at).moduleId, at);
            ScanContainers(FlashReader(flash), flash[at..at + HEADER_SIZE], at, max, seq(k, _ => e)) == seq(max, _ => e)
    decreases max - k
  {
    hide DecodeHeader, StandsStill, ContainerStep, WrapAdd;
    if k < max {
      ScanStalls(flash, at, max, k + 1);
      var e := (ReadHeaderAt(flash, at).moduleId, at);
      var b := flash[at..at + HEADER_SIZE];
      StallsIff(at, ReadHeaderAt(flash, at).codeSize);
      assert b[0..4] == OVERLAY_MAGIC by {
        if b[0..4] != OVERLAY_MAGIC { WrongMagicRejected(b); }
      }
      assert seq(k, _ => e) + [e] == seq(k + 1, _ => e);
    }
  }

  // ---- Containers laid end to end ----

  datatype Module = Module(id: u32, entryOffset: u32, ramTarget: u32, code: seq<byte>)

  ghost predicate Packable(m: Module) {
    |m.code| < U32
  }

  ghost predicate AllPackable(ms: seq<Module>) {
    forall i :: 0 <= i < |ms| ==> Packable(ms[i])
  }

  function HeaderOf(m: Module): OverlayHeader {
    NewHeader(m.id, |m.code| % U32, m.entryOffset, m.ramTarget, Crc32(m.code))
  }

  /** A packed module; its header holds the payload's length cut to u32. */
  function Container(m: Module): (b: seq<byte>)
    ensures |b| == HEADER_SIZE + |m.code|
  {
    EncodeHeader(HeaderOf(m)) + m.code
  }

  /** Containers at `at`, each followed by whatever bytes pad it to a multiple of four. */
  ghost predicate LaidAt(flash: seq<byte>, at: nat, ms: seq<Module>)
    decreases |ms|
  {
    ms == [] ||
    var size := HEADER_SIZE + |ms[0].code|;
    at + size <= |flash| && flash[at..at + size] == Container(ms[0]) && LaidAt(flash, at + Padded(size), ms[1..])
  }

  function EndOf(at: nat, ms: seq<Module>): (end: nat)
    ensures end >= at
    decreases |ms|
  {
    if ms == [] then at else EndOf(at + Padded(HEADER_SIZE + |ms[0].code|), ms[1..])
  }

  /** Module identifiers with the offsets of their containers. */
  function Places(at: nat, ms: seq<Module>): (p: seq<(u32, u32)>)
    requires EndOf(at, ms) <= U32
    ensures |p| == |ms|
    decreases |ms|
  {
    if ms == [] then [] else [(ms[0].id, at)] + Places(at + Padded(HEADER_SIZE + |ms[0].code|), ms[1..])
  }

  lemma ContainerHeader(flash: seq<byte>, at: nat, m: Module)
    requires Packable(m) && at + HEADER_SIZE + |m.code| <= |flash|
    requires flash[at..at + HEADER_SIZE + |m.code|] == Container(m)
    ensures HeaderAt(flash, at) && ReadHeaderAt(flash, at) == HeaderOf(m)
    ensures flash[at..at + HEADER_SIZE] == EncodeHeader(HeaderOf(m))
    ensures flash[at + HEADER_SIZE..at + HEADER_SIZE + |m.code|] == m.code
  {
    hide DecodeHeader, EncodeHeader, HeaderOf, NewHeader, Crc32;
    var b, c := flash[at..at + HEADER_SIZE + |m.code|], EncodeHeader(HeaderOf(m));
    assert flash[at..at + HEADER_SIZE] == b[..HEADER_SIZE] == c;
    assert flash[at + HEADER_SIZE..at + HEADER_SIZE + |m.code|] == b[HEADER_SIZE..] == m.code;
    HeaderOfDecodes(m);
  }

  lemma HeaderOfDecodes(m: Module)
    requires Packable(m)
    ensures DecodeHeader(EncodeHeader(HeaderOf(m))) == Ok(HeaderOf(m))
  {
    hide DecodeHeader, EncodeHeader, NewHeader, Crc32;
    NewHeaderRoundTrip(m.id, |m.code|, m.entryOffset, m.ramTarget, Crc32(m.code), []);
    assert EncodeHeader(HeaderOf(m)) + [] == EncodeHeader(HeaderOf(m));
  }

  lemma {:induction false} LaidIsChain(flash: seq<byte>, at: u32, ms: seq<Module>, n: nat)
    requires AllPackable(ms) && LaidAt(flash, at, ms) && EndOf(at, ms) < U32 && n <= |ms|
    ensures Chain(flash, at, Places(at, ms)[..n])
    ensures n == |ms| ==> ChainEnd(flash, at, Places(at, ms)[..n]) == EndOf(at, ms)
    decreases |ms|
  {
    hide DecodeHeader, HeaderOf, Container, ContainerStep, HeaderAt, ReadHeaderAt, NextAfter, Padded;
    var found := Places(at, ms)[..n];
    if n == 0 {
      assert found == [];
    } else {
      var next := at + Padded(HEADER_SIZE + |ms[0].code|);
      LaidIsChain(flash, next, ms[1..], n - 1);
      assert found[1..] == Places(next, ms[1..])[..n - 1];
      LaidHead(flash, at, ms);
    }
  }

  lemma LaidHead(flash: seq<byte>, at: u32, ms: seq<Module>)
    requires AllPackable(ms) && ms != [] && LaidAt(flash, at, ms) && EndOf(at, ms) < U32
    ensures HeaderAt(flash, at) && ReadHeaderAt(flash, at).moduleId == ms[0].id
    ensures NextAfter(flash, at) == at + Padded(HEADER_SIZE + |ms[0].code|)
  {
    hide DecodeHeader, HeaderOf, Container, ContainerStep, Padded, WrapAdd, HeaderAt, ReadHeaderAt;
    var next := at + Padded(HEADER_SIZE + |ms[0].code|);
    assert next <= EndOf(next, ms[1..]) == EndOf(at, ms);
    ContainerHeader(flash, at, ms[0]);
    HeaderOfFields(ms[0]);
    StepReaches(at, |ms[0].code|);
  }

  lemma HeaderOfFields(m: Module)
    requires Packable(m)
    ensures HeaderOf(m).moduleId == m.id && HeaderOf(m).codeSize == |m.code| && HeaderOf(m).entryOffset == m.entryOffset
    ensures HeaderOf(m).payloadCrc == Crc32(m.code)
  {
    hide Crc32, EncodeHeader;
  }

  /** From any offset there is one longest chain. */
  lemma {:induction false} ChainUnique(flash: seq<byte>, at: u32, a: seq<(u32, u32)>, b: seq<(u32, u32)>, max: nat)
    requires Chain(flash, at, a) && Chain(flash, at, b) && |a| <= max && |b| <= max
    requires |a| < max ==> !HeaderAt(flash, ChainEnd(flash, at, a))
    requires |b| < max ==> !HeaderAt(flash, ChainEnd(flash, at, b))
    ensures a == b
    decreases |a|
  {
    hide DecodeHeader, ContainerStep;
    if a != [] && b != [] {
      ChainUnique(flash, NextAfter(flash, at), a[1..], b[1..], max - 1);
      assert a == [a[0]] + a[1..] && b == [b[0]] + b[1..];
    }
  }

  /**
   * Containers laid end to end from any base and followed by no valid header are all found, in
   * order and at their exact offsets, up to the size of the table.
   */
  lemma SequentialDiscovery(flash: seq<byte>, base: u32, ms: seq<Module>, max: nat)
    requires AllPackable(ms) && ms != [] && LaidAt(flash, base, ms) && EndOf(base, ms) < U32
    requires !HeaderAt(flash, EndOf(base, ms))
    ensures Discover(FlashReader(flash), base, max) == Ok(Places(base, ms)[..if |ms| < max then |ms| else max])
  {
    hide DecodeHeader, Discover, ContainerStep, EndOf, Places, HeaderOf, Chain, ChainEnd;
    var n := if |ms| < max then |ms| else max;
    LaidIsChain(flash, base, ms, n);
    ContainerHeader(flash, base, ms[0]);
    HeaderMagic(flash, base);
    var found := DiscoveryIsLongestChain(flash, base, max);
    ChainUnique(flash, base, found, Places(base, ms)[..n], max);
  }

  lemma HeaderMagic(flash: seq<byte>, at: nat)
    requires HeaderAt(flash, at)
    ensures flash[at..at + 4] == OVERLAY_MAGIC
  {
    hide Crc32;
    assert flash[at..at + HEADER_SIZE][0..4] == flash[at..at + 4];
  }

  /** Mounting such an image into an empty table that can hold it registers exactly its modules. */
  lemma SequentialMount(flash: seq<byte>, base: u32, ms: seq<Module>, max: nat)
    requires AllPackable(ms) && ms != [] && LaidAt(flash, base, ms) && EndOf(base, ms) < U32
    requires !HeaderAt(flash, EndOf(base, ms)) && |ms| <= max
    requires forall i, j :: 0 <= i < j < |ms| ==> ms[i].id != ms[j].id
    ensures var (reg, r) := MountInto(EmptyRegistry(max), FlashReader(flash), base);
            r == Ok(|ms|) && HoldsExactly(reg, Places(base, ms))
  {
    hide DecodeHeader, Discover, ContainerStep, EndOf, HeaderOf, RegisterAll, HoldsExactly, LaidAt;
    SequentialDiscovery(flash, base, ms, max);
    var found := Places(base, ms);
    assert found[..|ms|] == found;
    forall i, j | 0 <= i < j < |found| ensures found[i].0 != found[j].0 {
      PlaceAt(base, ms, i); PlaceAt(base, ms, j);
    }
    BatchRegisters(max, found);
  }

  /** The i-th container starts after the padded sizes of those before it. */
  lemma {:induction false} PlaceAt(at: nat, ms: seq<Module>, i: nat)
    requires EndOf(at, ms) <= U32 && i < |ms|
    ensures EndOf(at, ms[..i + 1]) == EndOf(at, ms[..i]) + Padded(HEADER_SIZE + |ms[i].code|) <= EndOf(at, ms)
    ensures Places(at, ms)[i] == (ms[i].id, EndOf(at, ms[..i]))
    decreases i
  {
    hide Padded;
    var next := at + Padded(HEADER_SIZE + |ms[0].code|);
    if i > 0 {
      PlaceAt(next, ms[1..], i - 1);
      assert ms[..i][1..] == ms[1..][..i - 1];
      assert ms[..i + 1][1..] == ms[1..][..i];
    } else {
      assert ms[..1][1..] == [] && ms[..0] == [];
    }
  }

  lemma {:induction false} EndOfAligned(at: nat, ms: seq<Module>)
    requires at % 4 == 0
    ensures EndOf(at, ms) % 4 == 0
    decreases |ms|
  {
    hide Padded;
    if ms != [] {
      PaddedAligned(HEADER_SIZE + |ms[0].code|);
      EndOfAligned(at + Padded(HEADER_SIZE + |ms[0].code|), ms[1..]);
    }
  }
}
