/** Loads over the block adapter: when a failed payload read spares the slot, and what it leaves there when not. */
module BlockLoads {
  import opened Bytes
  import opened Header
  import opened Storage
  import opened Overlay
  import opened OverlayRuns
  import opened Discovery
  import opened PackedImages
  import Block

  // ---- The adapter as storage ----

  /** The adapter's bounds test, on a device of these bytes. */
  predicate InReach(data: seq<byte>, o: nat, n: nat) {
    o + n < U32 && o + n <= |data| % U32
  }

  /** A read through an adapter with a coherent cache: how it ends, and what the buffer holds then. */
  function BlockRead(data: seq<byte>, bs: nat, cached: Option<nat>, faults: seq<bool>,
                     o: nat, buf: seq<byte>): (r: ReadOutcome)
    requires bs > 0
    ensures |r.after| == |buf|
  {
    if !InReach(data, o, |buf|) then Fault(buf)
    else
      Block.TruncatedCapacity(|data|);
      var k := Block.Serve(bs, cached, faults, o, |buf|).filled;
      if k == |buf| then Done(data[o..o + k]) else Fault(data[o..o + k] + buf[k..])
  }

  function BlockReader(data: seq<byte>, bs: nat, cached: Option<nat>, faults: seq<bool>): (r: Reader)
    requires bs > 0
    ensures ValidReader(r)
  {
    (o: nat, buf: seq<byte>) => BlockRead(data, bs, cached, faults, o, buf)
  }

  /** The adapter class, as an overlay manager's storage, is this reader. */
  method ReadThrough(adapter: Block.BlockDeviceAdapter, offset: u32, buf: array<byte>) returns (ok: bool)
    requires adapter.Valid() && buf.Length < U32 && buf != adapter.cache && buf != adapter.device.data
    modifies adapter, adapter.device`faults, adapter.cache, buf
    ensures adapter.Valid() && adapter.device.data[..] == old(adapter.device.data[..])
    ensures var out := BlockRead(adapter.device.data[..], adapter.blockSize, old(adapter.cachedBlock),
                                 old(adapter.device.faults),
                                 offset, old(buf[..]));
            buf[..] == out.after && ok == out.Done?
  {
    hide Block.Serve, adapter.Coherent, adapter.Belief, Block.Either;
    adapter.ValidIsSane();
    ghost var was := buf[..];
    var r := adapter.Read(offset, buf);
    if r != Block.OutOfBounds {
      ghost var s := Block.Serve(adapter.blockSize, old(adapter.cachedBlock), old(adapter.device.faults),
                                     offset, buf.Length);
      assert buf[..] == buf[..s.filled] + buf[s.filled..];
    }
    ok := r == Block.BlockOk;
  }

  /**
   * Reads of `n` bytes at `o` leave the buffer alone whenever they fail, on every device and with every
   * script of failures, if and only if one device operation serves them.
   */
  lemma CleanIffOneOperation(bs: nat, o: nat, n: nat)
    requires bs > 0 && o + n < U32
    ensures Block.OneOperation(bs, o, n) <==>
            forall data, cached, faults, buf :: |buf| == n && BlockRead(data, bs, cached, faults, o, buf).Fault? ==>
              BlockRead(data, bs, cached, faults, o, buf).after == buf
  {
    hide Block.Serve, Block.OneOperation;
    if Block.OneOperation(bs, o, n) {
      forall data, cached, faults, buf | |buf| == n && BlockRead(data, bs, cached, faults, o, buf).Fault?
        ensures BlockRead(data, bs, cached, faults, o, buf).after == buf
      {
        FaultIsClean(data, bs, cached, faults, o, buf);
      }
    } else {
      var data, buf := Erased(o + n), Zeros(n);
      Block.OthersTear(bs, o, n);
      var out := BlockRead(data, bs, None, [false, true], o, buf);
      assert out.after[0] == 0xFF && buf[0] == 0;
    }
  }

  lemma FaultIsClean(data: seq<byte>, bs: nat, cached: Option<nat>, faults: seq<bool>, o: nat, buf: seq<byte>)
    requires bs > 0 && Block.OneOperation(bs, o, |buf|) && BlockRead(data, bs, cached, faults, o, buf).Fault?
    ensures BlockRead(data, bs, cached, faults, o, buf).after == buf
  {
    hide Block.Serve, Block.OneOperation;
    Block.OneOperationIsWhole(bs, cached, faults, o, |buf|);
    Block.TruncatedCapacity(|data|);
    assert o <= |data| ==> data[o..o] + buf[0..] == buf;
  }

  // ---- Loads that are spared ----

  /** Storage that answers one request as `out` does, and refuses every other. */
  function OnlyAnswer(at: nat, asked: seq<byte>, out: ReadOutcome): (r: Reader)
    requires |out.after| == |asked|
    ensures ValidReader(r) && ((out.Fault? ==> out.after == asked) ==> CleanFaults(r))
  {
    (o: nat, buf: seq<byte>) => if o == at && buf == asked then out else Fault(buf)
  }

  /** Two payload storages answer this request alike, if it comes to a payload read. */
  ghost predicate SameAnswer(m: Manager, id: u32, offset: u32, hdr: Reader, pay: Reader, other: Reader)
    requires Shaped(m)
  {
    var h := hdr(offset, Zeros(HEADER_SIZE)).after;
    Admit(m, id, h).Ok? ==>
      var t := Admit(m, id, h).value;
      var (at, asked) := (WrapAdd(offset, HEADER_SIZE), m.rams[t.slot][..t.header.codeSize]);
      pay(at, asked) == other(at, asked)
  }

  /** A load depends on its payload storage through one answer. */
  lemma LoadDependsOnAnswer(m: Manager, recs: seq<Option<Record>>, id: u32, offset: u32, hdr: Reader, pay: Reader,
                            other: Reader)
    requires Shaped(m) && ValidReader(hdr) && ValidReader(pay) && ValidReader(other) && |recs| == |m.slots|
    requires SameAnswer(m, id, offset, hdr, other, pay)
    ensures EnsureResident(m, id, offset, hdr, pay) == EnsureResident(m, id, offset, hdr, other)
    ensures NextRecords(m, recs, id, offset, hdr, pay) == NextRecords(m, recs, id, offset, hdr, other)
  {
    hide Admit, Finish, FindFrom;
  }

  /** The payload of any container this request could admit is served by one device operation. */
  ghost predicate PayloadInOneOperation(m: Manager, id: u32, offset: u32, hdr: Reader, bs: nat)
    requires bs > 0
  {
    var h := hdr(offset, Zeros(HEADER_SIZE)).after;
    Admit(m, id, h).Ok? ==> Block.OneOperation(bs, WrapAdd(offset, HEADER_SIZE), Admit(m, id, h).value.header.codeSize)
  }

  /** The payload read of this request, if it comes to one, leaves the slot alone when it fails. */
  ghost predicate CleanAnswer(m: Manager, id: u32, offset: u32, hdr: Reader, pay: Reader)
    requires Shaped(m)
  {
    var h := hdr(offset, Zeros(HEADER_SIZE)).after;
    Admit(m, id, h).Ok? ==>
      var t := Admit(m, id, h).value;
      var asked := m.rams[t.slot][..t.header.codeSize];
      var out := pay(WrapAdd(offset, HEADER_SIZE), asked);
      out.Fault? ==> out.after == asked
  }

  /** Storage whose failed reads are all clean, and which answers this request as `pay` does. */
  lemma CleanStandIn(m: Manager, recs: seq<Option<Record>>, id: u32, offset: u32, hdr: Reader, pay: Reader)
    returns (clean: Reader)
    requires Shaped(m) && ValidReader(hdr) && ValidReader(pay) && |recs| == |m.slots|
    requires CleanAnswer(m, id, offset, hdr, pay)
    ensures ValidReader(clean) && CleanFaults(clean) && SameAnswer(m, id, offset, hdr, clean, pay)
    ensures EnsureResident(m, id, offset, hdr, pay) == EnsureResident(m, id, offset, hdr, clean)
    ensures NextRecords(m, recs, id, offset, hdr, pay) == NextRecords(m, recs, id, offset, hdr, clean)
  {
    hide Admit, EnsureResident, NextRecords, WrapAdd;
    clean := FlashReader([]);
    var h := hdr(offset, Zeros(HEADER_SIZE)).after;
    if Admit(m, id, h).Ok? {
      var t := Admit(m, id, h).value;
      var at, asked := WrapAdd(offset, HEADER_SIZE), m.rams[t.slot][..t.header.codeSize];
      clean := OnlyAnswer(at, asked, pay(at, asked));
      assert clean(at, asked) == pay(at, asked);
    }
    LoadDependsOnAnswer(m, recs, id, offset, hdr, pay, clean);
  }

  lemma CleanAnswerBacked(m: Manager, recs: seq<Option<Record>>, id: u32, offset: u32, hdr: Reader, pay: Reader)
    requires Backed(m, recs) && Shaped(m) && |recs| == |m.slots|
    requires ValidReader(hdr) && ValidReader(pay) && CleanAnswer(m, id, offset, hdr, pay)
    ensures Backed(EnsureResident(m, id, offset, hdr, pay).0, NextRecords(m, recs, id, offset, hdr, pay))
  {
    hide Admit, EnsureResident, NextRecords, Backed, CleanAnswer;
    var clean := CleanStandIn(m, recs, id, offset, hdr, pay);
    EnsureBacked(m, recs, id, offset, hdr, clean);
  }

  /** One clean answer is all a load needs of storage to keep every invariant. */
  lemma CleanAnswerKept(m: Manager, recs: seq<Option<Record>>, id: u32, offset: u32, hdr: Reader, pay: Reader)
    requires Good(m) && Room(m, 1) && Backed(m, recs) && Shaped(m) && |recs| == |m.slots|
    requires ValidReader(hdr) && ValidReader(pay) && CleanAnswer(m, id, offset, hdr, pay)
    ensures Good(EnsureResident(m, id, offset, hdr, pay).0)
    ensures Backed(EnsureResident(m, id, offset, hdr, pay).0, NextRecords(m, recs, id, offset, hdr, pay))
  {
    hide Admit, EnsureResident, NextRecords, Good, Backed, CleanAnswer, Room;
    var clean := CleanStandIn(m, recs, id, offset, hdr, pay);
    EnsureGood(m, id, offset, hdr, clean);
    CleanAnswerBacked(m, recs, id, offset, hdr, pay);
  }

  lemma SparedIsClean(m: Manager, id: u32, offset: u32, hdr: Reader, data: seq<byte>, bs: nat,
                      cached: Option<nat>, faults: seq<bool>)
    requires Shaped(m) && ValidReader(hdr) && bs > 0 && PayloadInOneOperation(m, id, offset, hdr, bs)
    ensures CleanAnswer(m, id, offset, hdr, BlockReader(data, bs, cached, faults))
  {
    hide Admit, BlockRead, Block.OneOperation, WrapAdd;
    var pay := BlockReader(data, bs, cached, faults);
    var h := hdr(offset, Zeros(HEADER_SIZE)).after;
    if Admit(m, id, h).Ok? {
      var t := Admit(m, id, h).value;
      var at, asked := WrapAdd(offset, HEADER_SIZE), m.rams[t.slot][..t.header.codeSize];
      if pay(at, asked).Fault? {
        FaultIsClean(data, bs, cached, faults, at, asked);
      }
    }
  }

  /** Over the adapter, whatever it has cached and whatever the device fails, such a load keeps every invariant. */
  lemma BlockLoadKept(m: Manager, recs: seq<Option<Record>>, id: u32, offset: u32, hdr: Reader,
                      data: seq<byte>, bs: nat, cached: Option<nat>, faults: seq<bool>)
    requires Good(m) && Room(m, 1) && Backed(m, recs) && ValidReader(hdr) && |recs| == |m.slots| && Shaped(m)
    requires bs > 0 && PayloadInOneOperation(m, id, offset, hdr, bs)
    ensures var pay := BlockReader(data, bs, cached, faults);
            && Good(EnsureResident(m, id, offset, hdr, pay).0)
            && Backed(EnsureResident(m, id, offset, hdr, pay).0, NextRecords(m, recs, id, offset, hdr, pay))
  {
    hide Admit, EnsureResident, NextRecords, Good, Backed, Room, BlockRead, Block.OneOperation, WrapAdd;
    SparedIsClean(m, id, offset, hdr, data, bs, cached, faults);
    CleanAnswerKept(m, recs, id, offset, hdr, BlockReader(data, bs, cached, faults));
  }

  // ---- Runs over the adapter ----

  /** A load whose payload comes through the adapter, in whatever state it and its device are; or another operation. */
  datatype Step =
    | Load(id: u32, offset: u32, hdr: Reader, data: seq<byte>, bs: nat, cached: Option<nat>, faults: seq<bool>)
    | Other(op: Op)

  ghost predicate Proper(st: Step) {
    match st
    case Load(_, _, hdr, _, bs, _, _) => ValidReader(hdr) && bs > 0
    case Other(op) => Admissible(op)
  }

  ghost function Take(m: Manager, st: Step): (d: Manager)
    requires Shaped(m) && Proper(st)
    ensures Shaped(d) && |d.slots| == |m.slots|
  {
    match st
    case Load(id, o, hdr, data, bs, cached, faults) =>
      EnsureResident(m, id, o, hdr, BlockReader(data, bs, cached, faults)).0
    case Other(op) => Apply(m, op)
  }

  ghost predicate AllProper(steps: seq<Step>) {
    forall k :: 0 <= k < |steps| ==> Proper(steps[k])
  }

  ghost function TakeAll(m: Manager, steps: seq<Step>): (d: Manager)
    requires Shaped(m) && AllProper(steps)
    ensures Shaped(d) && |d.slots| == |m.slots|
  {
    if steps == [] then m else Take(TakeAll(m, steps[..|steps| - 1]), steps[|steps| - 1])
  }

  /** One device operation serves the payload read of this step, if it comes to one. */
  ghost predicate Spared(m: Manager, st: Step)
    requires Proper(st)
  {
    st.Load? ==> PayloadInOneOperation(m, st.id, st.offset, st.hdr, st.bs)
  }

  /** The operation stands for the step: the same request, with the same answers to the reads it makes. */
  ghost predicate StandsFor(m: Manager, op: Op, st: Step)
    requires Shaped(m) && Proper(st)
  {
    match st
    case Other(other) => op == other
    case Load(id, o, hdr, data, bs, cached, faults) =>
      && op.Ensure? && op.id == id && op.offset == o && op.hdr == hdr
      && SameAnswer(m, id, o, hdr, op.pay, BlockReader(data, bs, cached, faults))
  }

  lemma StepStandIn(m: Manager, st: Step) returns (op: Op)
    requires Shaped(m) && Proper(st) && Spared(m, st)
    ensures Admissible(op) && StandsFor(m, op, st) && Apply(m, op) == Take(m, st)
  {
    hide Admit, EnsureResident, NextRecords, BlockRead, Block.OneOperation, WrapAdd, SameAnswer, CleanAnswer;
    match st
    case Other(other) => op := other;
    case Load(id, o, hdr, data, bs, cached, faults) =>
      var pay := BlockReader(data, bs, cached, faults);
      SparedIsClean(m, id, o, hdr, data, bs, cached, faults);
      var clean := CleanStandIn(m, seq(|m.slots|, _ => None), id, o, hdr, pay);
      op := Ensure(id, o, hdr, clean);
  }

  ghost predicate AllSpared(m: Manager, steps: seq<Step>)
    requires Shaped(m) && AllProper(steps)
  {
    forall k :: 0 <= k < |steps| ==> Spared(TakeAll(m, steps[..k]), steps[k])
  }

  ghost predicate AllStandFor(m: Manager, ops: seq<Op>, steps: seq<Step>)
    requires Shaped(m) && AllProper(steps)
  {
    |ops| == |steps| && forall k :: 0 <= k < |steps| ==> StandsFor(TakeAll(m, steps[..k]), ops[k], steps[k])
  }

  lemma AllButLast(m: Manager, steps: seq<Step>)
    requires Shaped(m) && AllProper(steps) && AllSpared(m, steps) && steps != []
    ensures AllProper(steps[..|steps| - 1]) && AllSpared(m, steps[..|steps| - 1])
    ensures var n := |steps| - 1; Proper(steps[n]) && Spared(TakeAll(m, steps[..n]), steps[n])
  {
    hide Proper, Spared, TakeAll;
    var n := |steps| - 1;
    forall k | 0 <= k < n ensures Spared(TakeAll(m, steps[..n][..k]), steps[..n][k]) {
      assert steps[..n][..k] == steps[..k];
    }
  }

  lemma RunMore(m: Manager, ops: seq<Op>, op: Op)
    requires Shaped(m) && AllAdmissible(ops) && Admissible(op)
    ensures AllAdmissible(ops + [op]) && Run(m, ops + [op]) == Apply(Run(m, ops), op)
  {
    hide Apply, Admissible, Shaped;
    assert (ops + [op])[..|ops|] == ops;
  }

  lemma TakeMore(m: Manager, steps: seq<Step>)
    requires Shaped(m) && AllProper(steps) && steps != []
    ensures var n := |steps| - 1;
            AllProper(steps[..n]) && Proper(steps[n]) && TakeAll(m, steps) == Take(TakeAll(m, steps[..n]), steps[n])
  {
    hide Take, Proper, Shaped;
  }

  /** What stands for a prefix, read in the whole. */
  lemma StandsInPrefix(m: Manager, ops: seq<Op>, steps: seq<Step>, n: nat, k: nat)
    requires Shaped(m) && AllProper(steps) && k < n <= |steps| && AllProper(steps[..n])
    requires AllStandFor(m, ops, steps[..n])
    ensures |ops| == n && AllProper(steps[..k]) && StandsFor(TakeAll(m, steps[..k]), ops[k], steps[k])
  {
    hide Proper, StandsFor, TakeAll, Shaped;
    assert steps[..n][..k] == steps[..k];
  }

  lemma StandMore(m: Manager, ops: seq<Op>, op: Op, steps: seq<Step>)
    requires Shaped(m) && AllProper(steps) && steps != []
    requires var n := |steps| - 1;
             && AllProper(steps[..n]) && |ops| == n
             && (forall k :: 0 <= k < n ==> StandsFor(TakeAll(m, steps[..k]), ops[k], steps[k]))
             && StandsFor(TakeAll(m, steps[..n]), op, steps[n])
    ensures AllStandFor(m, ops + [op], steps)
  {
    hide Proper, StandsFor, TakeAll, Shaped;
  }

  /**
   * A run over the adapter whose payload reads are each served by one device operation, whatever the
   * device does between and during them, is a run of the kind `OverlayRuns` speaks of, with the same
   * requests and the same answers, so all that is proved there holds of it.
   */
  lemma {:induction false} AdapterRunIsRun(m: Manager, steps: seq<Step>) returns (ops: seq<Op>)
    requires Shaped(m) && AllProper(steps) && AllSpared(m, steps)
    ensures AllAdmissible(ops) && Run(m, ops) == TakeAll(m, steps) && AllStandFor(m, ops, steps)
    decreases |steps|
  {
    if steps == [] {
      ops := [];
    } else {
      hide *;
      var n := |steps| - 1;
      AllButLast(m, steps);
      var before := AdapterRunIsRun(m, steps[..n]);
      var op := StepStandIn(TakeAll(m, steps[..n]), steps[n]);
      TakeMore(m, steps);
      RunMore(m, before, op);
      forall k | 0 <= k < n ensures StandsFor(TakeAll(m, steps[..k]), before[k], steps[k]) {
        StandsInPrefix(m, before, steps, n, k);
      }
      StandMore(m, before, op, steps);
      ops := before + [op];
    }
  }

  // ---- Loads that are torn ----

  /** What a read the adapter serves up to `k` leaves in the buffer. */
  lemma PartServed(data: seq<byte>, bs: nat, cached: Option<nat>, faults: seq<bool>, o: nat, buf: seq<byte>, k: nat)
    requires bs > 0 && InReach(data, o, |buf|)
    requires k == Block.Serve(bs, cached, faults, o, |buf|).filled < |buf|
    ensures o + k <= |data| && BlockReader(data, bs, cached, faults)(o, buf) == Fault(data[o..o + k] + buf[k..])
  {
    hide Block.Serve;
    Block.TruncatedCapacity(|data|);
  }

  lemma TicketRoom(m: Manager, id: u32, header: seq<byte>, t: Ticket)
    requires Shaped(m) && Admit(m, id, header) == Ok(t)
    ensures t.slot < |m.slots| == |m.rams| && t.header.codeSize <= |m.rams[t.slot]|
  {
    hide Admit;
  }

  /** A load whose payload read fails having put `served` into the slot, and nothing else. */
  lemma TornLoad(m: Manager, id: u32, offset: u32, hdr: Reader, pay: Reader, t: Ticket, served: seq<byte>)
    requires Shaped(m) && ValidReader(hdr) && ValidReader(pay) && Find(m, id).None?
    requires hdr(offset, Zeros(HEADER_SIZE)).Done? && Admit(m, id, hdr(offset, Zeros(HEADER_SIZE)).after) == Ok(t)
    requires |served| <= t.header.codeSize
    requires var asked := m.rams[t.slot][..t.header.codeSize];
             pay(WrapAdd(offset, HEADER_SIZE), asked) == Fault(served + asked[|served|..])
    ensures var (d, r) := EnsureResident(m, id, offset, hdr, pay);
            && r == Err(OverlayError.Storage) && d.slots == m.slots
            && d.rams == m.rams[t.slot := served + m.rams[t.slot][|served|..]]
            && (m.slots[t.slot].resident.Some? ==> CheckCall(d, t.slot, m.slots[t.slot].resident.value) == Ok(()))
  {
    hide Admit, FindFrom, Finish, WrapAdd, DecodeHeader, SelectSlot;
    var n, ram := t.header.codeSize, m.rams[t.slot];
    assert served + ram[..n][|served|..] + ram[n..] == served + ram[|served|..];
  }

  /** Its victim is still backed if and only if it was empty or those bytes are the old module's own. */
  lemma TornVictim(m: Manager, recs: seq<Option<Record>>, id: u32, offset: u32, hdr: Reader, pay: Reader, t: Ticket,
                   served: seq<byte>)
    requires Shaped(m) && Backed(m, recs) && ValidReader(hdr) && ValidReader(pay) && Find(m, id).None?
    requires hdr(offset, Zeros(HEADER_SIZE)).Done? && Admit(m, id, hdr(offset, Zeros(HEADER_SIZE)).after) == Ok(t)
    requires |served| <= t.header.codeSize
    requires var asked := m.rams[t.slot][..t.header.codeSize];
             pay(WrapAdd(offset, HEADER_SIZE), asked) == Fault(served + asked[|served|..])
    ensures |recs| == |m.slots| && (m.slots[t.slot].resident.Some? ==> recs[t.slot].Some?)
    ensures NextRecords(m, recs, id, offset, hdr, pay) == recs
    ensures Backed(EnsureResident(m, id, offset, hdr, pay).0, recs) <==>
            m.slots[t.slot].resident.None?
            || forall a :: 0 <= a < |served| && a < |recs[t.slot].value.code| ==>
                 served[a] == recs[t.slot].value.code[a]
  {
    hide *;
    TicketRoom(m, id, hdr(offset, Zeros(HEADER_SIZE)).after, t);
    var ram := m.rams[t.slot];
    var torn := served + ram[..t.header.codeSize][|served|..];
    TornReadBreaksBacking(m, recs, id, offset, hdr, pay, torn);
    BackedSizes(m, recs);
    if m.slots[t.slot].resident.Some? {
      BackedSlot(m, recs, t.slot);
      TornAgrees(torn, ram, recs[t.slot].value.code, served);
    }
  }

  /**
   * A failed load from `m` left `d`: slot `v` claims what it claimed before over the bytes `served`, a
   * call of its old module is still let through, and it is still backed if and only if it was empty or
   * those bytes are the old module's own.
   */
  ghost predicate TornOver(m: Manager, recs: seq<Option<Record>>, v: nat, served: seq<byte>, d: Manager,
                           r: Result<nat, OverlayError>)
  {
    && v < |m.slots| == |m.rams| == |recs| && |served| <= |m.rams[v]|
    && r == Err(OverlayError.Storage) && d.slots == m.slots
    && d.rams == m.rams[v := served + m.rams[v][|served|..]]
    && var was := m.slots[v].resident;
       && (was.Some? ==> recs[v].Some? && CheckCall(d, v, was.value) == Ok(()))
       && (Backed(d, recs) <==>
           was.None?
           || forall a :: 0 <= a < |served| && a < |recs[v].value.code| ==> served[a] == recs[v].value.code[a])
  }

  lemma TornLoadIs(m: Manager, recs: seq<Option<Record>>, id: u32, offset: u32, hdr: Reader, pay: Reader, t: Ticket,
                   served: seq<byte>)
    requires Shaped(m) && Backed(m, recs) && ValidReader(hdr) && ValidReader(pay) && Find(m, id).None?
    requires hdr(offset, Zeros(HEADER_SIZE)).Done? && Admit(m, id, hdr(offset, Zeros(HEADER_SIZE)).after) == Ok(t)
    requires |served| <= t.header.codeSize
    requires var asked := m.rams[t.slot][..t.header.codeSize];
             pay(WrapAdd(offset, HEADER_SIZE), asked) == Fault(served + asked[|served|..])
    ensures var (d, r) := EnsureResident(m, id, offset, hdr, pay);
            && TornOver(m, recs, t.slot, served, d, r)
            && |recs| == |m.slots| && NextRecords(m, recs, id, offset, hdr, pay) == recs
  {
    hide Admit, EnsureResident, Backed, WrapAdd, FindFrom, CheckCall;
    TicketRoom(m, id, hdr(offset, Zeros(HEADER_SIZE)).after, t);
    TornLoad(m, id, offset, hdr, pay, t, served);
    TornVictim(m, recs, id, offset, hdr, pay, t, served);
  }

  /** A load whose payload read the adapter serves only in part. */
  lemma BlockLoadTorn(m: Manager, recs: seq<Option<Record>>, id: u32, offset: u32, hdr: Reader, t: Ticket,
                      data: seq<byte>, bs: nat, cached: Option<nat>, faults: seq<bool>, k: nat)
    requires Shaped(m) && Backed(m, recs) && ValidReader(hdr) && Find(m, id).None? && bs > 0
    requires hdr(offset, Zeros(HEADER_SIZE)).Done? && Admit(m, id, hdr(offset, Zeros(HEADER_SIZE)).after) == Ok(t)
    requires var at := WrapAdd(offset, HEADER_SIZE);
             && InReach(data, at, t.header.codeSize)
             && k == Block.Serve(bs, cached, faults, at, t.header.codeSize).filled < t.header.codeSize
    ensures var at := WrapAdd(offset, HEADER_SIZE);
            var pay := BlockReader(data, bs, cached, faults);
            var (d, r) := EnsureResident(m, id, offset, hdr, pay);
            && at + k <= |data| && TornOver(m, recs, t.slot, data[at..at + k], d, r)
            && |recs| == |m.slots| && NextRecords(m, recs, id, offset, hdr, pay) == recs
  {
    hide *;
    TicketRoom(m, id, hdr(offset, Zeros(HEADER_SIZE)).after, t);
    var at := WrapAdd(offset, HEADER_SIZE);
    PartServed(data, bs, cached, faults, at, m.rams[t.slot][..t.header.codeSize], k);
    TornLoadIs(m, recs, id, offset, hdr, BlockReader(data, bs, cached, faults), t, data[at..at + k]);
  }

  /** Bytes put into a slot that claims nothing, or no code, break nothing. */
  lemma HarmlessTear(m: Manager, recs: seq<Option<Record>>, v: nat, served: seq<byte>, d: Manager,
                     r: Result<nat, OverlayError>)
    requires TornOver(m, recs, v, served, d, r)
    ensures m.slots[v].resident.None? || recs[v].value.code == [] ==> Backed(d, recs)
    ensures m.slots[v].resident.Some? && served != [] && recs[v].value.code != []
            && served[0] != recs[v].value.code[0] ==>
              !Backed(d, recs)
  {
    hide Backed;
  }

  /** A load over the adapter for which no failure does harm. */
  lemma HarmlessBacked(m: Manager, recs: seq<Option<Record>>, id: u32, offset: u32, hdr: Reader, t: Ticket,
                       data: seq<byte>, bs: nat, cached: Option<nat>, faults: seq<bool>)
    requires Shaped(m) && Backed(m, recs) && |recs| == |m.slots| && ValidReader(hdr) && Find(m, id).None? && bs > 0
    requires hdr(offset, Zeros(HEADER_SIZE)).Done? && Admit(m, id, hdr(offset, Zeros(HEADER_SIZE)).after) == Ok(t)
    requires m.slots[t.slot].resident.Some? ==> recs[t.slot].Some?
    requires Block.OneOperation(bs, WrapAdd(offset, HEADER_SIZE), t.header.codeSize)
             || m.slots[t.slot].resident.None? || recs[t.slot].value.code == []
    ensures var pay := BlockReader(data, bs, cached, faults);
            Backed(EnsureResident(m, id, offset, hdr, pay).0, NextRecords(m, recs, id, offset, hdr, pay))
  {
    hide *;
    TicketRoom(m, id, hdr(offset, Zeros(HEADER_SIZE)).after, t);
    var at, n, pay := WrapAdd(offset, HEADER_SIZE), t.header.codeSize, BlockReader(data, bs, cached, faults);
    var asked := m.rams[t.slot][..n];
    var k := Block.Serve(bs, cached, faults, at, n).filled;
    if Block.OneOperation(bs, at, n) || !InReach(data, at, n) || k == n {
      WholeAnswer(data, bs, cached, faults, at, asked);
      IsCleanAnswer(m, id, offset, hdr, pay, t);
      CleanAnswerBacked(m, recs, id, offset, hdr, pay);
    } else {
      BlockLoadTorn(m, recs, id, offset, hdr, t, data, bs, cached, faults, k);
      var (d, r) := EnsureResident(m, id, offset, hdr, pay);
      HarmlessTear(m, recs, t.slot, data[at..at + k], d, r);
    }
  }

  lemma WholeAnswer(data: seq<byte>, bs: nat, cached: Option<nat>, faults: seq<bool>, o: nat, buf: seq<byte>)
    requires bs > 0
    requires Block.OneOperation(bs, o, |buf|) || !InReach(data, o, |buf|)
             || Block.Serve(bs, cached, faults, o, |buf|).filled == |buf|
    ensures var out := BlockReader(data, bs, cached, faults)(o, buf); out.Fault? ==> out.after == buf
  {
    hide Block.Serve, Block.OneOperation;
    if Block.OneOperation(bs, o, |buf|) && BlockRead(data, bs, cached, faults, o, buf).Fault? {
      FaultIsClean(data, bs, cached, faults, o, buf);
    }
  }

  lemma IsCleanAnswer(m: Manager, id: u32, offset: u32, hdr: Reader, pay: Reader, t: Ticket)
    requires Shaped(m) && ValidReader(pay) && Admit(m, id, hdr(offset, Zeros(HEADER_SIZE)).after) == Ok(t)
    requires var asked := m.rams[t.slot][..t.header.codeSize];
             var out := pay(WrapAdd(offset, HEADER_SIZE), asked); out.Fault? ==> out.after == asked
    ensures CleanAnswer(m, id, offset, hdr, pay)
  {
    hide Admit, WrapAdd;
  }

  /**
   * Exactly when the adapter is storage enough for a load: whatever the device holds, whatever is
   * cached and whatever fails, every resident slot is backed afterwards, if and only if one device
   * operation serves the payload read, or the slot selected claims nothing or no code.
   */
  lemma BlockLoadBackedIff(m: Manager, recs: seq<Option<Record>>, id: u32, offset: u32, hdr: Reader, t: Ticket, bs: nat)
    requires Shaped(m) && Backed(m, recs) && |recs| == |m.slots| && ValidReader(hdr) && Find(m, id).None? && bs > 0
    requires hdr(offset, Zeros(HEADER_SIZE)).Done? && Admit(m, id, hdr(offset, Zeros(HEADER_SIZE)).after) == Ok(t)
    requires WrapAdd(offset, HEADER_SIZE) + t.header.codeSize < U32
    ensures m.slots[t.slot].resident.Some? ==> recs[t.slot].Some?
    ensures (forall data, cached, faults ::
               var pay := BlockReader(data, bs, cached, faults);
               Backed(EnsureResident(m, id, offset, hdr, pay).0, NextRecords(m, recs, id, offset, hdr, pay)))
            <==> (Block.OneOperation(bs, WrapAdd(offset, HEADER_SIZE), t.header.codeSize)
                  || m.slots[t.slot].resident.None? || recs[t.slot].value.code == [])
  {
    hide *;
    TicketRoom(m, id, hdr(offset, Zeros(HEADER_SIZE)).after, t);
    if m.slots[t.slot].resident.Some? {
      BackedSlot(m, recs, t.slot);
    }
    var at, n := WrapAdd(offset, HEADER_SIZE), t.header.codeSize;
    if Block.OneOperation(bs, at, n) || m.slots[t.slot].resident.None? || recs[t.slot].value.code == [] {
      forall data, cached, faults
        ensures var pay := BlockReader(data, bs, cached, faults);
                Backed(EnsureResident(m, id, offset, hdr, pay).0, NextRecords(m, recs, id, offset, hdr, pay))
      {
        HarmlessBacked(m, recs, id, offset, hdr, t, data, bs, cached, faults);
      }
    } else {
      var other := Other(recs[t.slot].value.code[0]);
      var data := seq(at + n, _ => other);
      Block.OthersTear(bs, at, n);
      AllInReach(data, at, n);
      var k := Block.TearPoint(bs, at, n);
      BlockLoadTorn(m, recs, id, offset, hdr, t, data, bs, None, [false, true], k);
      var (d, r) := EnsureResident(m, id, offset, hdr, BlockReader(data, bs, None, [false, true]));
      assert data[at..at + k][0] == other;
      HarmlessTear(m, recs, t.slot, data[at..at + k], d, r);
    }
  }

  function Other(b: byte): (c: byte)
    ensures c != b
  {
    if b == 0 then 1 else 0
  }

  lemma BackedSlot(m: Manager, recs: seq<Option<Record>>, i: nat)
    requires Backed(m, recs) && i < |m.slots| && m.slots[i].resident.Some?
    ensures |recs| == |m.slots| == |m.rams| && recs[i].Some? && recs[i].value.code <= m.rams[i]
  {
  }

  /** Bytes past the tear are the old ones, so only those before it matter. */
  lemma TornAgrees(torn: seq<byte>, ram: seq<byte>, code: seq<byte>, served: seq<byte>)
    requires served <= torn && |torn| <= |ram| && code <= ram
    requires forall a :: |served| <= a < |torn| ==> torn[a] == ram[a]
    ensures (forall a :: 0 <= a < |torn| && a < |code| ==> torn[a] == code[a])
            <==> (forall a :: 0 <= a < |served| && a < |code| ==> served[a] == code[a])
  {
    assert forall a :: 0 <= a < |code| ==> code[a] == ram[a];
    assert forall a :: 0 <= a < |served| ==> torn[a] == served[a];
  }

  /**
   * One such, on 512-byte blocks: a container at 0 whose payload leaves its first block. The header
   * read caches that block; the payload read takes 480 bytes from the cache and fails at the second
   * block. The slot's old module is then called over the first 480 bytes of the new one.
   */
  lemma FirstBlockTears(m: Manager, recs: seq<Option<Record>>, v: nat, x: Module, data: seq<byte>, old_: u32)
    requires Backed(m, recs) && Packable(x) && Takes(m, v, x) && m.slots[v].resident == Some(old_)
    requires 480 < |x.code| && HEADER_SIZE + |x.code| <= |data| < U32
    requires data[0..HEADER_SIZE + |x.code|] == Container(x)
    ensures Block.Serve(512, None, [false, true], 0, HEADER_SIZE) == Block.Service(HEADER_SIZE, Some(0), [true])
    ensures var (hdr, pay) := (BlockReader(data, 512, None, [false, true]), BlockReader(data, 512, Some(0), [true]));
            Shaped(m) &&
            var (d, r) := EnsureResident(m, x.id, 0, hdr, pay);
            TornOver(m, recs, v, x.code[..480], d, r) && CheckCall(d, v, old_) == Ok(())
  {
    hide *;
    TakesRoom(m, v, x);
    TakesMiss(m, v, x);
    ContainerHeader(data, 0, x);
    AdmitsContainer(m, v, x);
    HeaderOfFields(x);
    HeaderServed();
    HeaderArrives(data);
    PayloadServed(|x.code|);
    NoWrap(0, HEADER_SIZE);
    AllInReach(data, HEADER_SIZE, |x.code|);
    var hdr := BlockReader(data, 512, None, [false, true]);
    BlockLoadTorn(m, recs, x.id, 0, hdr, Ticket(v, HeaderOf(x)), data, 512, Some(0), [true], 480);
    StillCalled(m, recs, v, old_, x.id, hdr, BlockReader(data, 512, Some(0), [true]),
                data[HEADER_SIZE..HEADER_SIZE + 480]);
    assert data[HEADER_SIZE..HEADER_SIZE + 480] == data[HEADER_SIZE..HEADER_SIZE + |x.code|][..480] == x.code[..480];
  }

  lemma StillCalled(m: Manager, recs: seq<Option<Record>>, v: nat, old_: u32, id: u32, hdr: Reader, pay: Reader,
                    served: seq<byte>)
    requires Shaped(m) && ValidReader(pay) && v < |m.slots| && m.slots[v].resident == Some(old_)
    requires var (d, r) := EnsureResident(m, id, 0, hdr, pay); TornOver(m, recs, v, served, d, r)
    ensures CheckCall(EnsureResident(m, id, 0, hdr, pay).0, v, old_) == Ok(())
  {
    hide EnsureResident;
  }

  lemma TakesMiss(m: Manager, v: nat, x: Module)
    requires Takes(m, v, x)
    ensures Find(m, x.id).None?
  {
  }

  lemma HeaderServed()
    ensures Block.Serve(512, None, [false, true], 0, HEADER_SIZE) == Block.Service(HEADER_SIZE, Some(0), [true])
  {
    hide Block.Serve;
    Block.ServeStep(512, None, [false, true], 0, 32);
    Block.ServeNothing(512, Some(0), [true], 32);
  }

  lemma HeaderArrives(data: seq<byte>)
    requires HEADER_SIZE <= |data| < U32
    ensures BlockReader(data, 512, None, [false, true])(0, Zeros(HEADER_SIZE)) == Done(data[0..HEADER_SIZE])
  {
    hide Block.Serve;
    HeaderServed();
  }

  lemma AllInReach(data: seq<byte>, o: nat, n: nat)
    requires o + n <= |data| < U32
    ensures InReach(data, o, n)
  {
  }

  lemma PayloadServed(n: nat)
    requires n > 480
    ensures Block.Serve(512, Some(0), [true], HEADER_SIZE, n).filled == 480
  {
    hide Block.Serve;
    Block.ServeStep(512, Some(0), [true], 32, n);
    Block.ServeStep(512, Some(0), [true], 512, n - 480);
  }
}
