/** When memory, flash and residency may change under any interleaving of tasks. */
module TaskSafety {
  import opened Bytes
  import opened Crc
  import opened Header
  import opened Storage
  import opened Overlay
  import opened OverlayRuns
  import opened Engine
  import opened Tasks
  import opened TaskRuns

  // ---- Payloads arrive as flash holds them ----

  /** What a payload read has brought in so far is what flash holds at its place. */
  ghost predicate Arrived(m: Manager, flash: seq<byte>, pc: Pc) {
    pc.Streaming? && pc.done > 0 ==>
      var t, from := pc.ticket, WrapAdd(pc.offset, HEADER_SIZE);
      && TicketFits(m, t) && pc.done <= t.header.codeSize && PayloadInFlash(flash, pc.offset, t)
      && m.rams[t.slot][..pc.done] == flash[from..from + pc.done]
  }

  /** The manager invariant, with the payload read under way. */
  ghost predicate Safe(s: State, m0: Manager) {
    Inv(s, m0) && Arrived(s.m, s.flash, HolderPc(s))
  }

  lemma NothingArrived(m: Manager, flash: seq<byte>, pc: Pc)
    requires pc.Streaming? ==> pc.done == 0
    ensures Arrived(m, flash, pc)
  {
  }

  lemma ArrivalStarts(m: Manager, flash: seq<byte>, reg: Registry, job: Job, pc: Pc, c: Choice)
    requires LocalCan(m, flash, job, pc, c) && !pc.Streaming?
    ensures var next := Local(m, flash, reg, job, pc, c).pc; next.Streaming? ==> next.done == 0
  {
    hide Crc32, DecodeHeader, SelectSlot, FindFrom, Admit, FindOffsetIn, FlashRead, WrapAdd;
  }

  lemma ArrivalStep(m: Manager, flash: seq<byte>, reg: Registry, job: Job, pc: Pc, c: Choice)
    requires LocalCan(m, flash, job, pc, c) && pc.Streaming?
    ensures var (f, o, t, k) := (Local(m, flash, reg, job, pc, c), pc.offset, pc.ticket, pc.done);
            if c.Dma? then
              && TicketFits(m, t) && k + c.count <= t.header.codeSize && PayloadInFlash(flash, o, t)
              && f.m == Streamed(m, flash, o, t, k, c.count) && f.flash == flash
              && f.pc == Streaming(o, pc.header, t, k + c.count)
            else !f.pc.Streaming?
  {
    hide Streamed, WrapAdd, Crc32;
  }

  lemma StreamedArrives(m: Manager, flash: seq<byte>, o: u32, b: seq<byte>, t: Ticket, k: nat, n: nat)
    requires TicketFits(m, t) && PayloadInFlash(flash, o, t) && k + n <= t.header.codeSize
    requires Arrived(m, flash, Streaming(o, b, t, k))
    ensures Arrived(Streamed(m, flash, o, t, k, n), flash, Streaming(o, b, t, k + n))
  {
    hide WrapAdd;
    var i, from := t.slot, WrapAdd(o, HEADER_SIZE);
    var after := Streamed(m, flash, o, t, k, n).rams[i];
    assert after[..k + n] == m.rams[i][..k] + flash[from + k..from + k + n];
    assert flash[from..from + k] + flash[from + k..from + k + n] == flash[from..from + k + n];
  }

  lemma LocalArrived(m: Manager, flash: seq<byte>, reg: Registry, job: Job, pc: Pc, c: Choice)
    requires LocalCan(m, flash, job, pc, c) && Arrived(m, flash, pc)
    ensures var f := Local(m, flash, reg, job, pc, c); Arrived(f.m, f.flash, f.pc)
  {
    hide *;
    var f := Local(m, flash, reg, job, pc, c);
    if pc.Streaming? {
      ArrivalStep(m, flash, reg, job, pc, c);
      if c.Dma? {
        StreamedArrives(m, flash, pc.offset, pc.header, pc.ticket, pc.done, c.count);
      } else {
        NothingArrived(f.m, f.flash, f.pc);
      }
    } else {
      ArrivalStarts(m, flash, reg, job, pc, c);
      NothingArrived(f.m, f.flash, f.pc);
    }
  }

  /** Flash changes only under the bus lock, so not while another task's storage operation is in progress. */
  lemma FlashStableForHolder(s: State, e: Event, t: nat)
    requires Locks(s) && Can(s, e) && t < |s.tasks| && HoldsBus(s.tasks[t].pc)
    requires e.Turn? ==> e.task != t
    ensures Do(s, e).flash == s.flash && Do(s, e).bus == s.bus == Some(t)
  {
    hide Crc32, DecodeHeader, SelectSlot, FindFrom, Admit, FindOffsetIn, FlashRead;
  }

  lemma StepKeepsSafe(s: State, m0: Manager, e: Event)
    requires Safe(s, m0) && Can(s, e)
    ensures Safe(Do(s, e), m0)
  {
    hide Local, LocalCan, Tracks, CacheTracks, Run, Arrived;
    StepKeepsInv(s, m0, e);
    var next := Do(s, e);
    HolderIs(s); HolderIs(next);
    match e
    case Fill(i, a) =>
      FillArrived(s.m, s.flash, HolderPc(s), i, a);
    case Turn(t, c) =>
      var pc := s.tasks[t].pc;
      LocalFits(s.m, s.flash, s.registry, s.tasks[t].jobs[0], pc, c);
      if InManager(pc) || pc.WantManager? {
        NoneArriving(s.m, s.flash, pc);
        LocalArrived(s.m, s.flash, s.registry, s.tasks[t].jobs[0], pc, c);
        NoneArriving(next.m, next.flash, HolderPc(next));
      } else {
        OutsideLeavesManager(s.m, s.flash, s.registry, s.tasks[t].jobs[0], pc, c);
        assert HolderPc(next) == HolderPc(s);
        NoneArriving(s.m, next.flash, HolderPc(s));
        if HolderPc(s).Streaming? {
          FlashStableForHolder(s, e, s.manager.value);
        }
      }
  }

  lemma NoneArriving(m: Manager, flash: seq<byte>, pc: Pc)
    ensures !pc.Streaming? ==> Arrived(m, flash, pc)
  {
  }

  lemma FillArrived(m: Manager, flash: seq<byte>, pc: Pc, i: nat, a: nat)
    requires Arrived(m, flash, pc) && i < |m.rams| && a < |m.rams[i]|
    ensures Arrived(FillLine(m, i, a), flash, pc)
  {
  }

  lemma {:induction false} EveryRunIsSafe(s: State, es: seq<Event>)
    requires Initial(s) && Play(s, es).Some?
    ensures Safe(Play(s, es).value, s.m) && |Play(s, es).value.log| <= |es|
    decreases |es|
  {
    hide Can, Do, Inv, Arrived;
    if es == [] {
      StartsInv(s);
      NoneArriving(s.m, s.flash, HolderPc(s));
    } else {
      var n := |es| - 1;
      EveryRunIsSafe(s, es[..n]);
      StepKeepsSafe(Play(s, es[..n]).value, s.m, es[n]);
      LogGrowsByOne(Play(s, es[..n]).value, es[n]);
    }
  }

  lemma LogGrowsByOne(s: State, e: Event)
    requires Can(s, e)
    ensures |Do(s, e).log| <= |s.log| + 1
  {
    hide Local, LocalCan;
    if e.Turn? {
      LocalOps(s.m, s.flash, s.registry, s.tasks[e.task].jobs[0], s.tasks[e.task].pc, e.choice);
    }
  }

  /** A payload read that completes has put into the slot what flash holds at that moment. */
  lemma CompletedReadIsFlash(s: State, m0: Manager, t: nat)
    requires Safe(s, m0) && Can(s, Turn(t, Go)) && s.tasks[t].pc.Streaming?
    ensures var k, from := s.tasks[t].pc.ticket, WrapAdd(s.tasks[t].pc.offset, HEADER_SIZE);
            && TicketFits(s.m, k) && from + k.header.codeSize <= |s.flash|
            && s.m.rams[k.slot][..k.header.codeSize] == s.flash[from..from + k.header.codeSize]
            && Do(s, Turn(t, Go)).tasks[t].pc == Loaded(s.tasks[t].pc.offset, s.tasks[t].pc.header, k)
            && Do(s, Turn(t, Go)).m == s.m
  {
    hide Crc32, DecodeHeader, SelectSlot, FindFrom, Admit, FindOffsetIn, FlashRead, Inv, WrapAdd;
    assert Locks(s) && HolderPc(s) == s.tasks[t].pc by { SafeLocks(s, m0); HolderIs(s); }
  }

  lemma SafeLocks(s: State, m0: Manager)
    requires Safe(s, m0)
    ensures Locks(s)
  {
  }

  /** No two tasks are inside the manager, and no two inside storage. */
  lemma MutualExclusion(s: State, es: seq<Event>, t: nat, u: nat)
    requires Initial(s) && Play(s, es).Some? && t < |s.tasks| && u < |s.tasks| && t != u
    ensures var d := Play(s, es).value;
            && |d.tasks| == |s.tasks|
            && !(InManager(d.tasks[t].pc) && InManager(d.tasks[u].pc))
            && !(HoldsBus(d.tasks[t].pc) && HoldsBus(d.tasks[u].pc))
  {
    EveryRunIsSafe(s, es);
    SameTasks(s, es);
    SafeLocks(Play(s, es).value, s.m);
  }

  lemma {:induction false} SameTasks(s: State, es: seq<Event>)
    requires Play(s, es).Some?
    ensures |Play(s, es).value.tasks| == |s.tasks|
    decreases |es|
  {
    hide Can, Do;
    if es != [] {
      SameTasks(s, es[..|es| - 1]);
      StepSameTasks(Play(s, es[..|es| - 1]).value, es[|es| - 1]);
    }
  }

  lemma StepSameTasks(s: State, e: Event)
    requires Can(s, e)
    ensures |Do(s, e).tasks| == |s.tasks|
  {
    hide Local, LocalCan;
  }

  // ---- What runs ----

  /** While a call runs, no step of any task writes any slot or changes what is resident. */
  lemma NothingWrittenWhileRunning(s: State, m0: Manager, t: nat, e: Event)
    requires Safe(s, m0) && t < |s.tasks| && s.tasks[t].pc.Running? && Can(s, e)
    ensures Do(s, e).m.rams == s.m.rams && Do(s, e).m.slots == s.m.slots && Do(s, e).m.counter == s.m.counter
  {
    hide Tracks, CacheTracks, Run, Arrived, Local, LocalCan;
    HolderIs(s);
    if e.Turn? && e.task != t {
      OutsideLeavesManager(s.m, s.flash, s.registry, s.tasks[e.task].jobs[0], s.tasks[e.task].pc, e.choice);
    } else if e.Turn? {
      RunningLeavesManager(s.m, s.flash, s.registry, s.tasks[t].jobs[0], s.tasks[t].pc, e.choice);
    }
  }

  lemma RunningLeavesManager(m: Manager, flash: seq<byte>, reg: Registry, job: Job, pc: Pc, c: Choice)
    requires LocalCan(m, flash, job, pc, c) && pc.Running?
    ensures Local(m, flash, reg, job, pc, c).m == m
  {
  }

  /** The residency test of a typed call never fails: the slot its load returned still holds the module. */
  lemma CallCheckNeverFails(s: State, m0: Manager, t: nat)
    requires Safe(s, m0) && t < |s.tasks| && s.tasks[t].pc.Ready? && Can(s, Turn(t, Go))
    ensures s.tasks[t].jobs[0].CallJob?
    ensures CheckCall(s.m, s.tasks[t].pc.slot, s.tasks[t].jobs[0].id) == Ok(())
    ensures Do(s, Turn(t, Go)).tasks[t].pc == Running(s.tasks[t].pc.slot, s.tasks[t].jobs[0].fetches, false)
  {
    hide Run, Arrived;
    HolderIs(s);
    assert Tracks(s.m, Run(m0, s.log), s.tasks[t].jobs[0], s.tasks[t].pc);
  }

  // ---- The hook ----

  predicate NewlyResident(before: Slot, after: Slot) {
    after.resident.Some? && after.resident != before.resident
  }

  /** The hook runs in one place: once the payload checksum matched, before the slot is marked resident. */
  lemma HookAfterCheckBeforeResidency(s: State, m0: Manager, e: Event)
    requires Safe(s, m0) && Can(s, e)
    ensures var n := Do(s, e).m;
            || n.hooks == s.m.hooks
            || (n.hooks == s.m.hooks + 1 && n.icache == map[] && n.slots == s.m.slots && n.rams == s.m.rams
                && HolderPc(s).Checked? && Matches(s.m, HolderPc(s).ticket))
    ensures var n := Do(s, e).m;
            forall i :: 0 <= i < |s.m.slots| && i < |n.slots| && NewlyResident(s.m.slots[i], n.slots[i]) ==>
              HolderPc(s).Synced? && HolderPc(s).ticket.slot == i && Matches(s.m, HolderPc(s).ticket)
  {
    hide CacheTracks, Run, Arrived, Local, LocalCan, Tracks, Locks;
    if e.Turn? {
      assert Locks(s);
      HolderIs(s);
      var job, pc := s.tasks[e.task].jobs[0], s.tasks[e.task].pc;
      LocalHook(s.m, s.flash, s.registry, job, pc, e.choice);
      if pc.Checked? || pc.Synced? {
        MatchedIs(s.m, Run(m0, s.log), job, pc);
      } else if !InManager(pc) {
        OutsideLeavesManager(s.m, s.flash, s.registry, job, pc, e.choice);
      }
    }
  }

  lemma LocalHook(m: Manager, flash: seq<byte>, reg: Registry, job: Job, pc: Pc, c: Choice)
    requires LocalCan(m, flash, job, pc, c)
    ensures var f := Local(m, flash, reg, job, pc, c);
            && (if pc.Checked?
                then f.m.hooks == m.hooks + 1 && f.m.icache == map[] && f.m.slots == m.slots && f.m.rams == m.rams
                else f.m.hooks == m.hooks)
            && forall i :: 0 <= i < |m.slots| && i < |f.m.slots| && NewlyResident(m.slots[i], f.m.slots[i]) ==>
                 pc.Synced? && pc.ticket.slot == i
  {
    hide Crc32, DecodeHeader, SelectSlot, Admit, FindOffsetIn, FlashRead, FindFrom;
  }

  lemma MatchedIs(m: Manager, d: Manager, job: Job, pc: Pc)
    requires Tracks(m, d, job, pc) && (pc.Checked? || pc.Synced?)
    ensures Matches(m, pc.ticket)
  {
  }

  /** Loads that succeeded among completed operations. */
  ghost function LoadsIn(m0: Manager, log: seq<Op>): nat
    requires Shaped(m0) && AllAdmissible(log)
  {
    if log == [] then 0
    else
      var d, op := Run(m0, log[..|log| - 1]), log[|log| - 1];
      LoadsIn(m0, log[..|log| - 1])
      + (if op.Ensure? && Find(d, op.id).None? && EnsureResident(d, op.id, op.offset, op.hdr, op.pay).1.Ok?
         then 1 else 0)
  }

  lemma {:induction false} HooksOfRun(m0: Manager, log: seq<Op>)
    requires Shaped(m0) && AllAdmissible(log)
    ensures Run(m0, log).hooks == m0.hooks + LoadsIn(m0, log)
    decreases |log|
  {
    hide EnsureResident, FindFrom;
    if log != [] {
      var d, op := Run(m0, log[..|log| - 1]), log[|log| - 1];
      HooksOfRun(m0, log[..|log| - 1]);
      assert AllAdmissible([op]);
      if op.Ensure? {
        HookOncePerLoad(d, op.id, op.offset, op.hdr, op.pay);
      }
    }
  }

  /** Exactly one hook call for every load that succeeded, and one more only between a load's hook and its residency. */
  lemma HooksCountLoads(s: State, m0: Manager)
    requires Safe(s, m0)
    ensures Shaped(m0) && AllAdmissible(s.log)
    ensures s.m.hooks == m0.hooks + LoadsIn(m0, s.log) + if HolderPc(s).Synced? then 1 else 0
  {
    hide Crc32, DecodeHeader, SelectSlot, Admit, FindFrom, Run, Arrived, Locks, CacheTracks, LoadsIn;
    HooksOfRun(m0, s.log);
  }
}
