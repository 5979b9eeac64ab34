/** No interleaving deadlocks, and every schedule ends with all tasks finished. */
module TaskLiveness {
  import opened Bytes
  import opened Crc
  import opened Header
  import opened Storage
  import opened Overlay
  import opened OverlayRuns
  import opened Engine
  import opened Tasks
  import opened TaskRuns
  import opened TaskSafety

  predicate Unfinished(s: State, t: nat) {
    t < |s.tasks| && s.tasks[t].jobs != []
  }

  // ---- Deadlock freedom ----

  lemma StreamGoes(m: Manager, d: Manager, flash: seq<byte>, job: Job, pc: Pc) returns (c: Choice)
    requires pc.Streaming? && Tasks.Fits(job, pc) && Tracks(m, d, job, pc) && Arrived(m, flash, pc)
    ensures LocalCan(m, flash, job, pc, c)
  {
    hide Crc32, Admit, FindFrom, WrapAdd;
    c := if !PayloadInFlash(flash, pc.offset, pc.ticket) then Refuse
         else if pc.done == pc.ticket.header.codeSize then Go
         else Dma(1);
  }

  /** A task inside storage can go on: its operation is complete, or is refused, or brings in a byte. */
  lemma BusHolderGoes(s: State, m0: Manager, t: nat) returns (c: Choice)
    requires Safe(s, m0) && s.bus == Some(t)
    ensures Can(s, Turn(t, c))
  {
    hide Run, CacheTracks, Tracks, Arrived, TicketFits, PayloadInFlash;
    var task := s.tasks[t];
    if task.pc.Streaming? {
      hide LocalCan;
      HolderIs(s);
      c := StreamGoes(s.m, Run(m0, s.log), s.flash, task.jobs[0], task.pc);
    } else {
      c := Go;
    }
  }

  /** With the bus free, a task inside the manager can go on. */
  lemma ManagerHolderGoes(s: State, m0: Manager, t: nat) returns (c: Choice)
    requires Safe(s, m0) && s.bus.None? && s.manager == Some(t)
    ensures Can(s, Turn(t, c))
  {
    hide Run, CacheTracks, Crc32, Admit, FindFrom;
    HolderIs(s);
    var task := s.tasks[t];
    assert Tracks(s.m, Run(m0, s.log), task.jobs[0], task.pc);
    c := if task.pc.Running? then Return else Go;
  }

  /** In every safe state with an unfinished task, some task has a step. */
  lemma NoDeadlock(s: State, m0: Manager, t: nat) returns (u: nat, c: Choice)
    requires Safe(s, m0) && Unfinished(s, t)
    ensures Can(s, Turn(u, c))
  {
    hide Run, CacheTracks, Tracks, Arrived;
    if s.bus.Some? {
      u := s.bus.value;
      c := BusHolderGoes(s, m0, u);
    } else if s.manager.Some? {
      u := s.manager.value;
      c := ManagerHolderGoes(s, m0, u);
    } else {
      u, c := t, Go;
    }
  }

  /** Every reachable state with an unfinished task has an enabled step. */
  lemma EveryRunCanGoOn(s: State, es: seq<Event>, t: nat) returns (u: nat, c: Choice)
    requires Initial(s) && Play(s, es).Some? && Unfinished(Play(s, es).value, t)
    ensures Can(Play(s, es).value, Turn(u, c))
  {
    hide Can, Safe;
    EveryRunIsSafe(s, es);
    u, c := NoDeadlock(Play(s, es).value, s.m, t);
  }

  // ---- Termination ----

  function Fetches(job: Job): nat {
    if job.CallJob? then job.fetches else 0
  }

  /** An upper bound on the steps a job takes when no slot has more than `cap` bytes. */
  function Cost(job: Job, cap: nat): nat {
    13 + cap + Fetches(job)
  }

  function Costs(jobs: seq<Job>, cap: nat): nat {
    if jobs == [] then 0 else Cost(jobs[0], cap) + Costs(jobs[1..], cap)
  }

  /** The same for what is left of a job in progress. */
  function Left(job: Job, pc: Pc, cap: nat): nat {
    match pc
    case Idle => Cost(job, cap)
    case WantManager(_) => 12 + cap + Fetches(job)
    case Entered(_) => 11 + cap + Fetches(job)
    case WantHeader(_) => 10 + cap + Fetches(job)
    case ReadingHeader(_) => 9 + cap + Fetches(job)
    case GotHeader(_, _) => 8 + cap + Fetches(job)
    case WantPayload(_, _, _) => 7 + cap + Fetches(job)
    case Streaming(_, _, t, k) => 6 + (if k <= t.header.codeSize then t.header.codeSize - k else 0) + Fetches(job)
    case Loaded(_, _, _) => 5 + Fetches(job)
    case Checked(_, _, _) => 4 + Fetches(job)
    case Synced(_, _, _) => 3 + Fetches(job)
    case Ready(_) => 2 + Fetches(job)
    case Running(_, left, _) => 1 + left
    case WantBus => 2
    case OnBus => 1
  }

  function TaskLeft(task: Task, cap: nat): nat {
    if task.jobs == [] then 0 else Left(task.jobs[0], task.pc, cap) + Costs(task.jobs[1..], cap)
  }

  function Measure(tasks: seq<Task>, cap: nat): nat {
    if tasks == [] then 0 else TaskLeft(tasks[0], cap) + Measure(tasks[1..], cap)
  }

  lemma {:induction false} MeasureUpdate(tasks: seq<Task>, t: nat, task: Task, cap: nat)
    requires t < |tasks|
    ensures Measure(tasks[t := task], cap) + TaskLeft(tasks[t], cap) == Measure(tasks, cap) + TaskLeft(task, cap)
    decreases |tasks|
  {
    hide TaskLeft;
    if t == 0 {
      assert tasks[t := task][1..] == tasks[1..];
    } else {
      MeasureUpdate(tasks[1..], t - 1, task, cap);
      assert tasks[t := task][1..] == tasks[1..][t - 1 := task];
    }
  }

  /** No slot has more than `cap` bytes. */
  ghost predicate Capped(m: Manager, cap: nat) {
    forall i :: 0 <= i < |m.rams| ==> |m.rams[i]| <= cap
  }

  lemma LocalCapped(m: Manager, flash: seq<byte>, reg: Registry, job: Job, pc: Pc, c: Choice, cap: nat)
    requires LocalCan(m, flash, job, pc, c) && Capped(m, cap)
    ensures Capped(Local(m, flash, reg, job, pc, c).m, cap)
  {
    hide Crc32, DecodeHeader, SelectSlot, FindFrom, Admit, FindOffsetIn, FlashRead, WrapAdd;
  }

  /** Every step of a task brings its job closer to the end. */
  lemma LocalDecreases(m: Manager, flash: seq<byte>, reg: Registry, job: Job, pc: Pc, c: Choice, cap: nat)
    requires LocalCan(m, flash, job, pc, c) && (pc.WantPayload? ==> pc.ticket.header.codeSize <= cap)
    ensures var next := Local(m, flash, reg, job, pc, c).pc;
            0 < Left(job, pc, cap) && (!next.Idle? ==> Left(job, next, cap) < Left(job, pc, cap))
  {
    hide Crc32, DecodeHeader, SelectSlot, FindFrom, Admit, FindOffsetIn, FlashRead, WrapAdd;
  }

  lemma TicketCapped(m: Manager, d: Manager, job: Job, pc: Pc, cap: nat)
    requires Tracks(m, d, job, pc) && Capped(m, cap) && pc.WantPayload?
    ensures pc.ticket.header.codeSize <= cap
  {
    hide Crc32, Admit, FindFrom;
  }

  lemma TurnDecreases(s: State, m0: Manager, t: nat, c: Choice, cap: nat)
    requires Safe(s, m0) && Capped(s.m, cap) && Can(s, Turn(t, c))
    ensures Measure(Do(s, Turn(t, c)).tasks, cap) < Measure(s.tasks, cap) && Capped(Do(s, Turn(t, c)).m, cap)
  {
    hide Run, CacheTracks, Tracks, Arrived, Local, LocalCan, Left, Capped, Measure;
    HolderIs(s);
    var task := s.tasks[t];
    LocalCapped(s.m, s.flash, s.registry, task.jobs[0], task.pc, c, cap);
    if task.pc.WantPayload? {
      TicketCapped(s.m, Run(m0, s.log), task.jobs[0], task.pc, cap);
    }
    LocalDecreases(s.m, s.flash, s.registry, task.jobs[0], task.pc, c, cap);
    var after := Do(s, Turn(t, c)).tasks[t];
    MeasureUpdate(s.tasks, t, after, cap);
    if after.pc.Idle? {
      IdleLeft(after, cap);
    }
  }

  lemma IdleLeft(task: Task, cap: nat)
    requires task.pc.Idle?
    ensures TaskLeft(task, cap) == Costs(task.jobs, cap)
  {
  }

  lemma FillKeepsMeasure(s: State, i: nat, a: nat, cap: nat)
    requires Can(s, Fill(i, a)) && Capped(s.m, cap)
    ensures Do(s, Fill(i, a)).tasks == s.tasks && Capped(Do(s, Fill(i, a)).m, cap)
  {
  }

  /** Task steps among events; the rest are fetches into the cache. */
  function Turns(es: seq<Event>): nat {
    if es == [] then 0 else Turns(es[..|es| - 1]) + if es[|es| - 1].Turn? then 1 else 0
  }

  /** Every schedule is finite: tasks take no more steps in all than their jobs cost. */
  lemma {:induction false} SchedulesEnd(s: State, es: seq<Event>, cap: nat)
    requires Initial(s) && Capped(s.m, cap) && Play(s, es).Some?
    ensures var d := Play(s, es).value;
            Turns(es) + Measure(d.tasks, cap) <= Measure(s.tasks, cap) && Capped(d.m, cap)
    decreases |es|
  {
    hide Can, Do, Safe, Capped;
    if es != [] {
      var before, e := es[..|es| - 1], es[|es| - 1];
      SchedulesEnd(s, before, cap);
      EveryRunIsSafe(s, before);
      var d := Play(s, before).value;
      match e
      case Turn(t, c) => TurnDecreases(d, s.m, t, c, cap);
      case Fill(i, a) => FillKeepsMeasure(d, i, a, cap);
    }
  }

  ghost predicate AllFinished(s: State) {
    forall t :: 0 <= t < |s.tasks| ==> s.tasks[t].jobs == []
  }

  /** A schedule that can go no further has finished every task. */
  lemma StuckMeansFinished(s: State, es: seq<Event>)
    requires Initial(s) && Play(s, es).Some?
    requires forall t: nat, c :: !Can(Play(s, es).value, Turn(t, c))
    ensures AllFinished(Play(s, es).value)
  {
    hide Can, Safe;
    var d := Play(s, es).value;
    forall t | 0 <= t < |d.tasks| ensures d.tasks[t].jobs == [] {
      if d.tasks[t].jobs != [] {
        var u, c := EveryRunCanGoOn(s, es, t);
      }
    }
  }

  lemma GoesOn(s: State, es: seq<Event>, t: nat, cap: nat) returns (e: Event)
    requires Initial(s) && Capped(s.m, cap) && Play(s, es).Some? && Unfinished(Play(s, es).value, t)
    ensures Play(s, es + [e]).Some?
    ensures Measure(Play(s, es + [e]).value.tasks, cap) < Measure(Play(s, es).value.tasks, cap)
  {
    hide Can, Do, Safe, Capped, Measure, Initial;
    var u, c := EveryRunCanGoOn(s, es, t);
    e := Turn(u, c);
    assert (es + [e])[..|es|] == es && (es + [e])[|es|] == e;
    EveryRunIsSafe(s, es);
    SchedulesEnd(s, es, cap);
    TurnDecreases(Play(s, es).value, s.m, u, c, cap);
  }

  /** From wherever a run has got to, all tasks can be brought to their end. */
  lemma {:induction false} EveryRunCanFinish(s: State, es: seq<Event>, cap: nat) returns (rest: seq<Event>)
    requires Initial(s) && Capped(s.m, cap) && Play(s, es).Some?
    ensures Play(s, es + rest).Some? && AllFinished(Play(s, es + rest).value)
    decreases Measure(Play(s, es).value.tasks, cap)
  {
    hide Play, Capped, Measure, Initial;
    var d := Play(s, es).value;
    if t: nat :| Unfinished(d, t) {
      var e := GoesOn(s, es, t, cap);
      var tail := EveryRunCanFinish(s, es + [e], cap);
      rest := [e] + tail;
      assert es + [e] + tail == es + rest;
    } else {
      rest := [];
      assert es + rest == es;
      forall t | 0 <= t < |d.tasks| ensures d.tasks[t].jobs == [] {
        assert !Unfinished(d, t);
      }
    }
  }
}
