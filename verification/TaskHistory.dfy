/** Where the code a task executes comes from: which job loaded it, and from what flash, at what moments of the run. */
module TaskHistory {
  import opened Bytes
  import opened Crc
  import opened Header
  import opened Storage
  import opened Overlay
  import opened OverlayRuns
  import opened Engine
  import opened Tasks
  import opened TaskRuns
  import opened TaskSafety

  // ---- What flash held, and when ----

  /** After its first `j` events the run's flash held `bytes` at `at`. */
  ghost predicate HeldAt(s: State, es: seq<Event>, j: nat, at: nat, bytes: seq<byte>) {
    && j <= |es| && Play(s, es[..j]).Some?
    && var flash := Play(s, es[..j]).value.flash;
       at + |bytes| <= |flash| && flash[at..at + |bytes|] == bytes
  }

  ghost predicate HeaderRead(s: State, es: seq<Event>, o: u32, header: seq<byte>) {
    |header| == HEADER_SIZE && exists j :: 0 <= j < |es| && HeldAt(s, es, j, o, header)
  }

  /** Flash held the header at the module's offset and, later, the payload behind it. */
  ghost predicate BothRead(s: State, es: seq<Event>, o: u32, header: seq<byte>, code: seq<byte>) {
    |header| == HEADER_SIZE
    && exists j, k :: 0 <= j < k < |es| && HeldAt(s, es, j, o, header)
                      && HeldAt(s, es, k, WrapAdd(o, HEADER_SIZE), code)
  }

  lemma HeldLater(s: State, es: seq<Event>, n: nat, j: nat, at: nat, bytes: seq<byte>)
    requires n <= |es| && HeldAt(s, es[..n], j, at, bytes)
    ensures HeldAt(s, es, j, at, bytes)
  {
    assert es[..n][..j] == es[..j];
  }

  lemma HeaderReadLater(s: State, es: seq<Event>, n: nat, o: u32, header: seq<byte>)
    requires n <= |es| && HeaderRead(s, es[..n], o, header)
    ensures HeaderRead(s, es, o, header)
  {
    hide HeldAt;
    var j :| 0 <= j < n && HeldAt(s, es[..n], j, o, header);
    HeldLater(s, es, n, j, o, header);
  }

  lemma BothReadLater(s: State, es: seq<Event>, n: nat, o: u32, header: seq<byte>, code: seq<byte>)
    requires n <= |es| && BothRead(s, es[..n], o, header, code)
    ensures BothRead(s, es, o, header, code)
  {
    hide HeldAt;
    var j, k :| 0 <= j < k < n && HeldAt(s, es[..n], j, o, header)
                && HeldAt(s, es[..n], k, WrapAdd(o, HEADER_SIZE), code);
    HeldLater(s, es, n, j, o, header);
    HeldLater(s, es, n, k, WrapAdd(o, HEADER_SIZE), code);
  }

  // ---- Completed operations against flash ----

  /** What the operation records storage to have answered is what flash held, or that it refused. */
  ghost predicate Genuine(s: State, es: seq<Event>, op: Op) {
    match op
    case Ensure(id, o, hdr, pay) =>
      || op == Ensure(id, o, Refusal(), Refusal())
      || (exists b :: HeaderRead(s, es, o, b) && op == Ensure(id, o, Answer(b), Refusal()))
      || (exists b, code :: BothRead(s, es, o, b, code) && op == Ensure(id, o, Answer(b), Answer(code)))
    case Evict(_) => true
    case _ => false
  }

  /** What the load in progress has read. */
  ghost predicate HasRead(s: State, es: seq<Event>, m: Manager, pc: Pc) {
    match pc
    case GotHeader(o, b) => HeaderRead(s, es, o, b)
    case WantPayload(o, b, _) => HeaderRead(s, es, o, b)
    case Streaming(o, b, _, _) => HeaderRead(s, es, o, b)
    case Loaded(o, b, t) => TicketFits(m, t) && BothRead(s, es, o, b, m.rams[t.slot][..t.header.codeSize])
    case Checked(o, b, t) => TicketFits(m, t) && BothRead(s, es, o, b, m.rams[t.slot][..t.header.codeSize])
    case Synced(o, b, t) => TicketFits(m, t) && BothRead(s, es, o, b, m.rams[t.slot][..t.header.codeSize])
    case _ => true
  }

  lemma GenuineLater(s: State, es: seq<Event>, n: nat, op: Op)
    requires n <= |es| && Genuine(s, es[..n], op)
    ensures Genuine(s, es, op)
  {
    hide HeaderRead, BothRead;
    if op.Ensure? && op != Ensure(op.id, op.offset, Refusal(), Refusal()) {
      if b :| HeaderRead(s, es[..n], op.offset, b) && op == Ensure(op.id, op.offset, Answer(b), Refusal()) {
        HeaderReadLater(s, es, n, op.offset, b);
      } else {
        var b, code :| BothRead(s, es[..n], op.offset, b, code)
                       && op == Ensure(op.id, op.offset, Answer(b), Answer(code));
        BothReadLater(s, es, n, op.offset, b, code);
      }
    }
  }

  lemma HasReadLater(s: State, es: seq<Event>, n: nat, m: Manager, pc: Pc)
    requires n <= |es| && HasRead(s, es[..n], m, pc)
    ensures HasRead(s, es, m, pc)
  {
    hide HeaderRead, BothRead;
    match pc
    case GotHeader(o, b) => HeaderReadLater(s, es, n, o, b);
    case WantPayload(o, b, _) => HeaderReadLater(s, es, n, o, b);
    case Streaming(o, b, _, _) => HeaderReadLater(s, es, n, o, b);
    case Loaded(o, b, t) => BothReadLater(s, es, n, o, b, m.rams[t.slot][..t.header.codeSize]);
    case Checked(o, b, t) => BothReadLater(s, es, n, o, b, m.rams[t.slot][..t.header.codeSize]);
    case Synced(o, b, t) => BothReadLater(s, es, n, o, b, m.rams[t.slot][..t.header.codeSize]);
    case _ =>
  }

  /** What a step leaves behind has been read, and what it records is true. */
  ghost predicate Truthful(s: State, es: seq<Event>, f: Effect) {
    HasRead(s, es, f.m, f.pc) && forall q :: 0 <= q < |f.ops| ==> Genuine(s, es, f.ops[q])
  }

  lemma HeaderReads(s: State, es: seq<Event>, job: Job, pc: Pc, c: Choice)
    requires es != [] && Play(s, es[..|es| - 1]).Some? && pc.ReadingHeader?
    requires var d := Play(s, es[..|es| - 1]).value; LocalCan(d.m, d.flash, job, pc, c)
    ensures var d := Play(s, es[..|es| - 1]).value; Truthful(s, es, Local(d.m, d.flash, d.registry, job, pc, c))
  {
    hide Play, HeldAt, HeaderRead, BothRead;
    if pc.offset + HEADER_SIZE <= |Play(s, es[..|es| - 1]).value.flash| {
      HeaderIsHeld(s, es, pc.offset);
    }
  }

  lemma StreamReads(s: State, es: seq<Event>, job: Job, pc: Pc, c: Choice)
    requires es != [] && Play(s, es[..|es| - 1]).Some? && pc.Streaming?
    requires var d := Play(s, es[..|es| - 1]).value;
             && LocalCan(d.m, d.flash, job, pc, c) && Arrived(d.m, d.flash, pc)
             && HeaderRead(s, es[..|es| - 1], pc.offset, pc.header) && HeaderRead(s, es, pc.offset, pc.header)
    ensures var d := Play(s, es[..|es| - 1]).value; Truthful(s, es, Local(d.m, d.flash, d.registry, job, pc, c))
  {
    hide Play, Arrived, Streamed, WrapAdd, HeldAt, HeaderRead, BothRead;
    if c.Go? {
      StreamedIsHeld(s, es, pc.offset, pc.header, pc.ticket, pc.done);
    }
  }

  /** Steps that work on what has been read. */
  lemma ReadKept(s: State, es: seq<Event>, m: Manager, flash: seq<byte>, reg: Registry, job: Job, pc: Pc, c: Choice)
    requires LocalCan(m, flash, job, pc, c) && HasRead(s, es, m, pc)
    requires pc.GotHeader? || pc.WantPayload? || pc.Loaded? || pc.Checked? || pc.Synced?
    ensures Truthful(s, es, Local(m, flash, reg, job, pc, c))
  {
    hide Crc32, DecodeHeader, Admit, HeaderRead, BothRead;
  }

  /** Steps before anything is read, or outside a load. */
  lemma NothingRead(s: State, es: seq<Event>, m: Manager, flash: seq<byte>, reg: Registry, job: Job, pc: Pc, c: Choice)
    requires LocalCan(m, flash, job, pc, c)
    requires pc.Idle? || pc.WantManager? || pc.Entered? || pc.WantHeader? || pc.Ready? || pc.Running? || pc.WantBus?
             || pc.OnBus?
    ensures Truthful(s, es, Local(m, flash, reg, job, pc, c))
  {
    hide FindFrom, FindOffsetIn, HeaderRead, BothRead;
  }

  /** A step reads what flash holds, and records what was read. */
  lemma LocalReads(s: State, es: seq<Event>, job: Job, pc: Pc, c: Choice)
    requires es != [] && Play(s, es[..|es| - 1]).Some?
    requires var d := Play(s, es[..|es| - 1]).value;
             && LocalCan(d.m, d.flash, job, pc, c) && HasRead(s, es, d.m, pc) && Arrived(d.m, d.flash, pc)
             && (pc.Streaming? ==> HeaderRead(s, es[..|es| - 1], pc.offset, pc.header))
    ensures var d := Play(s, es[..|es| - 1]).value; Truthful(s, es, Local(d.m, d.flash, d.registry, job, pc, c))
  {
    hide *;
    var d := Play(s, es[..|es| - 1]).value;
    if pc.ReadingHeader? {
      HeaderReads(s, es, job, pc, c);
    } else if pc.Streaming? {
      HeaderStillRead(s, es, d.m, pc);
      StreamReads(s, es, job, pc, c);
    } else if pc.GotHeader? || pc.WantPayload? || pc.Loaded? || pc.Checked? || pc.Synced? {
      ReadKept(s, es, d.m, d.flash, d.registry, job, pc, c);
    } else {
      NothingRead(s, es, d.m, d.flash, d.registry, job, pc, c);
    }
  }

  lemma HeaderStillRead(s: State, es: seq<Event>, m: Manager, pc: Pc)
    requires HasRead(s, es, m, pc) && pc.Streaming?
    ensures HeaderRead(s, es, pc.offset, pc.header)
  {
    hide HeaderRead;
  }

  lemma HeaderIsHeld(s: State, es: seq<Event>, o: u32)
    requires es != [] && Play(s, es[..|es| - 1]).Some?
    requires o + HEADER_SIZE <= |Play(s, es[..|es| - 1]).value.flash|
    ensures HeaderRead(s, es, o, Play(s, es[..|es| - 1]).value.flash[o..o + HEADER_SIZE])
  {
    hide Play;
    assert HeldAt(s, es, |es| - 1, o, Play(s, es[..|es| - 1]).value.flash[o..o + HEADER_SIZE]);
  }

  lemma StreamedIsHeld(s: State, es: seq<Event>, o: u32, b: seq<byte>, t: Ticket, k: nat)
    requires es != [] && Play(s, es[..|es| - 1]).Some?
    requires var d := Play(s, es[..|es| - 1]).value;
             && TicketFits(d.m, t) && k == t.header.codeSize && PayloadInFlash(d.flash, o, t)
             && Arrived(d.m, d.flash, Streaming(o, b, t, k))
    requires HeaderRead(s, es[..|es| - 1], o, b)
    ensures BothRead(s, es, o, b, Play(s, es[..|es| - 1]).value.m.rams[t.slot][..k])
  {
    hide Play, WrapAdd;
    var n := |es| - 1;
    var d := Play(s, es[..n]).value;
    var j :| 0 <= j < n && HeldAt(s, es[..n], j, o, b);
    HeldLater(s, es, n, j, o, b);
    assert d.m.rams[t.slot][..k] == d.flash[WrapAdd(o, HEADER_SIZE)..WrapAdd(o, HEADER_SIZE) + k];
    assert HeldAt(s, es, n, WrapAdd(o, HEADER_SIZE), d.m.rams[t.slot][..k]);
  }

  // ---- Completed operations against jobs ----

  /** Past its registry lookup a load works on the offset the registry gives. */
  ghost predicate Located(reg: Registry, job: Job, pc: Pc) {
    pc.Idle? || pc.WantBus? || pc.OnBus? || pc.Ready? || pc.Running? || job.EvictJob?
    || (Loads(job) && FindOffsetIn(reg, job.id) == Some(pc.offset))
  }

  /** Jobs that reach the manager: evictions, and loads of registered modules. */
  predicate Operates(reg: Registry, job: Job) {
    UsesManager(job) && (Loads(job) ==> FindOffsetIn(reg, job.id).Some?)
  }

  /** `op` is what `job` asks of the manager. */
  ghost predicate Performs(reg: Registry, op: Op, job: Job) {
    if job.EvictJob? then op == Op.Evict(job.id)
    else Loads(job) && op.Ensure? && op.id == job.id && FindOffsetIn(reg, job.id) == Some(op.offset)
  }

  function Operating(reg: Registry, jobs: seq<Job>): seq<Job> {
    if jobs == [] then []
    else
      var n := |jobs| - 1;
      Operating(reg, jobs[..n]) + if Operates(reg, jobs[n]) then [jobs[n]] else []
  }

  /** The operations that task `t` completed. */
  ghost function OpsBy(log: seq<Op>, authors: seq<nat>, t: nat): seq<Op>
    requires |log| == |authors|
  {
    if log == [] then []
    else
      var n := |log| - 1;
      OpsBy(log[..n], authors[..n], t) + if authors[n] == t then [log[n]] else []
  }

  ghost predicate AllPerform(reg: Registry, ops: seq<Op>, jobs: seq<Job>) {
    |ops| == |jobs| && forall q :: 0 <= q < |ops| ==> Performs(reg, ops[q], jobs[q])
  }

  /** Jobs whose manager operation is over: finished ones, and a call whose body runs. */
  function Served(jobs: seq<Job>, task: Task): int {
    |jobs| - |task.jobs| + if task.pc.Ready? || task.pc.Running? then 1 else 0
  }

  /** `ops` are the operations a task has completed, in order, for the jobs it was served. */
  ghost predicate Settled(reg: Registry, jobs: seq<Job>, task: Task, ops: seq<Op>) {
    && |task.jobs| <= |jobs| && task.jobs == jobs[|jobs| - |task.jobs|..]
    && 0 <= Served(jobs, task) <= |jobs|
    && AllPerform(reg, ops, Operating(reg, jobs[..Served(jobs, task)]))
  }

  /** Task `t` has completed exactly the manager operations of the jobs it was served, in order. */
  ghost predicate Accounted(s: State, d: State, t: nat)
    requires t < |s.tasks| && t < |d.tasks| && |d.log| == |d.authors|
  {
    Settled(s.registry, s.tasks[t].jobs, d.tasks[t], OpsBy(d.log, d.authors, t))
  }

  lemma LocalLocated(m: Manager, flash: seq<byte>, reg: Registry, job: Job, pc: Pc, c: Choice)
    requires LocalCan(m, flash, job, pc, c) && Located(reg, job, pc)
    ensures Located(reg, job, Local(m, flash, reg, job, pc, c).pc)
  {
    hide Crc32, DecodeHeader, SelectSlot, FindFrom, Admit, FlashRead, FindOffsetIn;
  }

  /** A job's operation is completed in the step that serves it, and in no other. */
  lemma LocalServes(m: Manager, flash: seq<byte>, reg: Registry, job: Job, pc: Pc, c: Choice)
    requires LocalCan(m, flash, job, pc, c) && Located(reg, job, pc)
    ensures var f := Local(m, flash, reg, job, pc, c);
            var serves := !pc.Ready? && !pc.Running? && (f.pc.Idle? || f.pc.Ready? || f.pc.Running?);
            && (pc.Ready? || pc.Running? ==> f.pc.Running? || f.pc.Idle?)
            && (if serves && Operates(reg, job) then |f.ops| == 1 && Performs(reg, f.ops[0], job) else f.ops == [])
  {
    hide Crc32, DecodeHeader, SelectSlot, FindFrom, Admit, FlashRead, FindOffsetIn;
  }

  lemma OpsByMore(log: seq<Op>, authors: seq<nat>, ops: seq<Op>, t: nat, u: nat)
    requires |log| == |authors| && |ops| <= 1
    ensures |log + ops| == |if ops == [] then authors else authors + [t]|
    ensures OpsBy(log + ops, if ops == [] then authors else authors + [t], u)
            == OpsBy(log, authors, u) + if u == t then ops else []
  {
    if ops == [] {
      assert log + ops == log;
    } else {
      assert (log + ops)[..|log|] == log && (authors + [t])[..|log|] == authors;
    }
  }

  lemma ServedMore(reg: Registry, jobs: seq<Job>, n: nat, before: seq<Op>, ops: seq<Op>)
    requires n < |jobs| && AllPerform(reg, before, Operating(reg, jobs[..n]))
    requires if Operates(reg, jobs[n]) then |ops| == 1 && Performs(reg, ops[0], jobs[n]) else ops == []
    ensures AllPerform(reg, before + ops, Operating(reg, jobs[..n + 1]))
  {
    hide Operating, Performs, Operates;
    OperatingMore(reg, jobs, n);
    assert ops == [] ==> before + ops == before;
  }

  lemma StepSettled(reg: Registry, jobs: seq<Job>, task: Task, pc: Pc, before: seq<Op>, ops: seq<Op>)
    requires Settled(reg, jobs, task, before) && task.jobs != []
    requires task.pc.Ready? || task.pc.Running? ==> pc.Running? || pc.Idle?
    requires var serves := !task.pc.Ready? && !task.pc.Running? && (pc.Idle? || pc.Ready? || pc.Running?);
             if serves && Operates(reg, task.jobs[0]) then |ops| == 1 && Performs(reg, ops[0], task.jobs[0])
             else ops == []
    ensures Settled(reg, jobs, Task(if pc.Idle? then task.jobs[1..] else task.jobs, pc), before + ops)
  {
    hide Operating, Performs, Operates, AllPerform;
    var next := Task(if pc.Idle? then task.jobs[1..] else task.jobs, pc);
    var n := Served(jobs, task);
    assert next.jobs == jobs[|jobs| - |next.jobs|..];
    if Served(jobs, next) > n {
      assert jobs[n] == task.jobs[0];
      ServedMore(reg, jobs, n, before, ops);
    } else {
      assert before + [] == before;
    }
  }

  lemma TurnAccounted(s: State, d: State, t: nat, c: Choice, u: nat)
    requires Can(d, Turn(t, c)) && |d.tasks| == |s.tasks| && u < |s.tasks| && d.registry == s.registry
    requires |d.log| == |d.authors| && Accounted(s, d, u) && Located(s.registry, d.tasks[t].jobs[0], d.tasks[t].pc)
    ensures var e := Do(d, Turn(t, c)); |e.log| == |e.authors| && Accounted(s, e, u)
  {
    hide Local, LocalCan, OpsBy, Settled;
    var task := d.tasks[t];
    var f := Local(d.m, d.flash, d.registry, task.jobs[0], task.pc, c);
    LocalServes(d.m, d.flash, d.registry, task.jobs[0], task.pc, c);
    OpsByMore(d.log, d.authors, f.ops, t, u);
    if u == t {
      StepSettled(s.registry, s.tasks[t].jobs, task, f.pc, OpsBy(d.log, d.authors, t), f.ops);
    } else {
      assert OpsBy(d.log, d.authors, u) + [] == OpsBy(d.log, d.authors, u);
    }
  }

  lemma OperatingMore(reg: Registry, jobs: seq<Job>, n: nat)
    requires n < |jobs|
    ensures Operating(reg, jobs[..n + 1])
            == Operating(reg, jobs[..n]) + if Operates(reg, jobs[n]) then [jobs[n]] else []
  {
    assert jobs[..n + 1][..n] == jobs[..n];
  }

  // ---- The history invariant ----

  ghost predicate Recorded(s: State, es: seq<Event>, d: State) {
    && d.registry == s.registry && |d.tasks| == |s.tasks| && |d.log| == |d.authors|
    && (forall t :: 0 <= t < |d.tasks| && d.tasks[t].jobs != [] ==>
          Located(s.registry, d.tasks[t].jobs[0], d.tasks[t].pc))
    && (forall t :: 0 <= t < |d.tasks| ==> Accounted(s, d, t))
    && (forall n :: 0 <= n < |d.authors| ==> d.authors[n] < |d.tasks|)
    && (forall n :: 0 <= n < |d.log| ==> Genuine(s, es, d.log[n]))
    && HasRead(s, es, d.m, HolderPc(d))
  }

  lemma FillRecorded(s: State, es: seq<Event>, d: State, i: nat, a: nat)
    requires es != [] && Recorded(s, es[..|es| - 1], d) && Can(d, Fill(i, a))
    ensures Recorded(s, es, Do(d, Fill(i, a)))
  {
    hide Genuine, Located, OpsBy, Operating, BothRead, HeaderRead;
    var n := |es| - 1;
    forall q | 0 <= q < |d.log| ensures Genuine(s, es, d.log[q]) {
      GenuineLater(s, es, n, d.log[q]);
    }
    HasReadLater(s, es, n, d.m, HolderPc(d));
    var e := Do(d, Fill(i, a));
    assert e.m.rams == d.m.rams && e.m.slots == d.m.slots;
    forall t | 0 <= t < |e.tasks| ensures Accounted(s, e, t) {
      assert Accounted(s, d, t);
    }
  }

  lemma TurnLog(d: State, t: nat, c: Choice)
    requires Can(d, Turn(t, c)) && |d.log| == |d.authors|
    ensures var f := Local(d.m, d.flash, d.registry, d.tasks[t].jobs[0], d.tasks[t].pc, c);
            var e := Do(d, Turn(t, c));
            && e.registry == d.registry && |e.tasks| == |d.tasks| && e.log == d.log + f.ops && |e.log| == |e.authors|
            && (forall n :: 0 <= n < |e.authors| ==> e.authors[n] == t || e.authors[n] in d.authors)
  {
    hide Local, LocalCan;
    LocalOps(d.m, d.flash, d.registry, d.tasks[t].jobs[0], d.tasks[t].pc, c);
  }

  lemma TurnGenuine(s: State, es: seq<Event>, log: seq<Op>, ops: seq<Op>)
    requires es != [] && forall q :: 0 <= q < |log| ==> Genuine(s, es[..|es| - 1], log[q])
    requires forall q :: 0 <= q < |ops| ==> Genuine(s, es, ops[q])
    ensures forall q :: 0 <= q < |log + ops| ==> Genuine(s, es, (log + ops)[q])
  {
    hide Genuine;
    forall q | 0 <= q < |log + ops| ensures Genuine(s, es, (log + ops)[q]) {
      if q < |log| {
        GenuineLater(s, es, |es| - 1, log[q]);
      } else {
        assert (log + ops)[q] == ops[q - |log|];
      }
    }
  }

  lemma TurnRecorded(s: State, es: seq<Event>, t: nat, c: Choice)
    requires es != [] && Play(s, es[..|es| - 1]).Some?
    requires var d := Play(s, es[..|es| - 1]).value;
             Safe(d, s.m) && Recorded(s, es[..|es| - 1], d) && Can(d, Turn(t, c))
    ensures Recorded(s, es, Do(Play(s, es[..|es| - 1]).value, Turn(t, c)))
  {
    hide Genuine, Located, Accounted, HasRead, Inv, Arrived, Local, LocalCan, Play, Locks, Do;
    var d := Play(s, es[..|es| - 1]).value;
    var f := Local(d.m, d.flash, d.registry, d.tasks[t].jobs[0], d.tasks[t].pc, c);
    var e := Do(d, Turn(t, c));
    TurnLog(d, t, c);
    HasReadLater(s, es, |es| - 1, d.m, HolderPc(d));
    TurnLocated(s, d, t, c);
    forall u | 0 <= u < |e.tasks| ensures Accounted(s, e, u) {
      TurnAccounted(s, d, t, c, u);
    }
    TurnReads(s, es, t, c);
    TurnGenuine(s, es, d.log, f.ops);
  }

  lemma TurnLocated(s: State, d: State, t: nat, c: Choice)
    requires Can(d, Turn(t, c)) && d.registry == s.registry
    requires forall u :: 0 <= u < |d.tasks| && d.tasks[u].jobs != [] ==>
               Located(s.registry, d.tasks[u].jobs[0], d.tasks[u].pc)
    ensures var e := Do(d, Turn(t, c));
            forall u :: 0 <= u < |e.tasks| && e.tasks[u].jobs != [] ==>
              Located(s.registry, e.tasks[u].jobs[0], e.tasks[u].pc)
  {
    hide Local, LocalCan;
    LocalLocated(d.m, d.flash, d.registry, d.tasks[t].jobs[0], d.tasks[t].pc, c);
  }

  /** A task's step keeps what the load in progress has read, and records its operation truthfully. */
  lemma TurnReads(s: State, es: seq<Event>, t: nat, c: Choice)
    requires es != [] && Play(s, es[..|es| - 1]).Some?
    requires var d := Play(s, es[..|es| - 1]).value;
             && Safe(d, s.m) && Can(d, Turn(t, c))
             && HasRead(s, es[..|es| - 1], d.m, HolderPc(d)) && HasRead(s, es, d.m, HolderPc(d))
    ensures var d := Play(s, es[..|es| - 1]).value;
            var f := Local(d.m, d.flash, d.registry, d.tasks[t].jobs[0], d.tasks[t].pc, c);
            && HasRead(s, es, Do(d, Turn(t, c)).m, HolderPc(Do(d, Turn(t, c))))
            && forall q :: 0 <= q < |f.ops| ==> Genuine(s, es, f.ops[q])
  {
    hide Genuine, Inv, Arrived, Local, LocalCan, Play, Locks, HeaderRead, BothRead;
    var d := Play(s, es[..|es| - 1]).value;
    var job, pc := d.tasks[t].jobs[0], d.tasks[t].pc;
    var e := Do(d, Turn(t, c));
    SafeLocks(d, s.m);
    HolderIs(d);
    LocksKept(d, Turn(t, c));
    HolderIs(e);
    LocalFits(d.m, d.flash, d.registry, job, pc, c);
    if InManager(pc) || pc.WantManager? {
      NoneArriving(d.m, d.flash, pc);
      LocalReads(s, es, job, pc, c);
    } else {
      OutsideLeavesManager(d.m, d.flash, d.registry, job, pc, c);
      assert HolderPc(e) == HolderPc(d);
    }
  }

  lemma {:induction false} EveryRunIsRecorded(s: State, es: seq<Event>)
    requires Initial(s) && Play(s, es).Some?
    ensures Recorded(s, es, Play(s, es).value)
    decreases |es|
  {
    hide Can, Do, Recorded, Safe;
    if es == [] {
      StartRecorded(s);
    } else {
      var n := |es| - 1;
      EveryRunIsRecorded(s, es[..n]);
      EveryRunIsSafe(s, es[..n]);
      match es[n]
      case Turn(t, c) => TurnRecorded(s, es, t, c);
      case Fill(i, a) => FillRecorded(s, es, Play(s, es[..n]).value, i, a);
    }
  }

  lemma StartRecorded(s: State)
    requires Initial(s)
    ensures Recorded(s, [], s)
  {
    forall t | 0 <= t < |s.tasks| ensures Accounted(s, s, t) {
      assert s.tasks[t].jobs[0..] == s.tasks[t].jobs;
    }
  }

  // ---- Main results ----

  /**
   * In every reachable state the manager operations completed so far took effect one at a time: all of
   * the manager but its instruction cache is what running them in order gives. They are exactly the
   * operations of the jobs each task was served, in its order, at the registry's offsets, and the
   * answers they record are what flash held. Residents are unique, each is backed by what its own load
   * read, their generations order them by use, and cached lines of resident slots agree with RAM.
   */
  lemma OperationsAreAtomic(s: State, es: seq<Event>)
    requires Initial(s) && |es| < U64 - 2 && Play(s, es).Some?
    ensures var d := Play(s, es).value;
            && AllAdmissible(d.log) && Good(Run(s.m, d.log)) && Timely(Run(s.m, d.log), RunRecent(s.m, d.log))
            && Backed(Run(s.m, d.log), RunRecords(s.m, d.log))
            && (d.manager.None? ==> Like(d.m, Run(s.m, d.log)) && CacheAgrees(d.m))
            && CacheTracks(d.m, HolderPc(d))
    ensures var d := Play(s, es).value;
            && |d.tasks| == |s.tasks| && |d.log| == |d.authors|
            && (forall n :: 0 <= n < |d.log| ==> d.authors[n] < |s.tasks| && Genuine(s, es, d.log[n]))
            && forall t :: 0 <= t < |s.tasks| ==> Accounted(s, d, t)
  {
    hide Crc32, DecodeHeader, Run, Play, Good, Timely, Backed, RunRecords, RunRecent, Locks, Arrived,
         Genuine, Accounted;
    EveryRunIsSafe(s, es);
    EveryRunIsRecorded(s, es);
    var d := Play(s, es).value;
    RunGood(s.m, d.log);
    if d.manager.None? {
      IdleCacheAgrees(d.m);
    }
  }

  lemma IdleCacheAgrees(m: Manager)
    requires CacheTracks(m, Idle)
    ensures CacheAgrees(m)
  {
    forall l | l in m.icache && l.0 < |m.slots| && l.0 < |m.rams| && m.slots[l.0].resident.Some?
      ensures l.1 < |m.rams[l.0]| && m.icache[l] == m.rams[l.0][l.1]
    {
      assert Trusted(m, Idle, l.0);
      assert LineAgrees(m, l);
    }
  }

  /** A completed operation that loaded was answered from flash twice, header first. */
  lemma LoadCameFromFlash(s: State, es: seq<Event>, m: Manager, op: Op) returns (j: nat, k: nat)
    requires Shaped(m) && Admissible(op) && op.Ensure? && Genuine(s, es, op)
    requires LoadsNow(m, op.id, op.offset, op.hdr, op.pay)
    ensures var r := LoadRecord(m, op.id, op.offset, op.hdr, op.pay);
            && |r.header| == HEADER_SIZE && j < k < |es| && HeldAt(s, es, j, op.offset, r.header)
            && HeldAt(s, es, k, WrapAdd(op.offset, HEADER_SIZE), r.code)
  {
    hide HeldAt, LoadsNow, LoadRecord, Crc32, DecodeHeader;
    LoadWasAnswered(m, op.id, op.offset, op.hdr, op.pay);
    var b, code :| BothRead(s, es, op.offset, b, code) && op == Ensure(op.id, op.offset, Answer(b), Answer(code));
    j, k :| 0 <= j < k < |es| && HeldAt(s, es, j, op.offset, b)
            && HeldAt(s, es, k, WrapAdd(op.offset, HEADER_SIZE), code);
  }

  /** Completed loads are at the registry's offsets. */
  lemma {:induction false} LoggedOffset(reg: Registry, log: seq<Op>, authors: seq<nat>, n: nat, jobs: seq<Job>)
    requires |log| == |authors| && n < |log| && AllPerform(reg, OpsBy(log, authors, authors[n]), jobs)
    ensures log[n].Ensure? ==> FindOffsetIn(reg, log[n].id) == Some(log[n].offset)
  {
    hide FindOffsetIn;
    OpsByHas(log, authors, n);
  }

  lemma {:induction false} OpsByHas(log: seq<Op>, authors: seq<nat>, n: nat)
    requires |log| == |authors| && n < |log|
    ensures log[n] in OpsBy(log, authors, authors[n])
    decreases |log|
  {
    if n < |log| - 1 {
      OpsByHas(log[..|log| - 1], authors[..|log| - 1], n);
    }
  }

  /**
   * Whatever the tasks, their interleaving, the writes to flash and the fetches into the cache: a byte
   * that a call of module `id` executes is the byte in its slot's RAM. That RAM starts with `code`,
   * which flash held behind the registered offset of `id` after `k` events; earlier, after `j`, flash
   * held at that offset a valid header of `id` whose payload checksum `code` has. A fetch below the
   * header's code size returns that byte of `code`, and the first fetch is at the header's entry offset.
   */
  lemma EveryFetchIsVerified(s: State, es: seq<Event>, t: nat, at: nat)
    returns (j: nat, k: nat, o: u32, header: seq<byte>, code: seq<byte>)
    requires Initial(s) && |es| < U64 - 2 && Play(s, es).Some? && Can(Play(s, es).value, Turn(t, Fetch(at)))
    ensures Play(s, es).value.tasks[t].pc.Running? && Play(s, es).value.tasks[t].jobs[0].CallJob?
    ensures j < k < |es| && FindOffsetIn(s.registry, Play(s, es).value.tasks[t].jobs[0].id) == Some(o)
    ensures |header| == HEADER_SIZE && HeldAt(s, es, j, o, header) && HeldAt(s, es, k, WrapAdd(o, HEADER_SIZE), code)
    ensures DecodeHeader(header).Ok?
    ensures var (d, h) := (Play(s, es).value, DecodeHeader(header).value);
            var (i, started) := (d.tasks[t].pc.slot, d.tasks[t].pc.started);
            && h.moduleId == d.tasks[t].jobs[0].id && |code| == h.codeSize && Crc32(code) == h.payloadCrc
            && i < |d.m.rams| && at < |d.m.rams[i]| && code <= d.m.rams[i]
            && FetchByte(d.m, i, at) == d.m.rams[i][at]
            && (at < h.codeSize ==> FetchByte(d.m, i, at) == code[at])
            && (!started ==> at == h.entryOffset)
  {
    hide Crc32, DecodeHeader, Run, Play, HeldAt, Genuine, Accounted, FindOffsetIn, RunRecords, RunRecent,
         LoadsNow, LoadSlot;
    hide LoadRecord, Arrived, Good, Timely, HasRead, Located;
    EveryRunIsSafe(s, es);
    EveryRunIsRecorded(s, es);
    var d := Play(s, es).value;
    HolderIs(d);
    var i, run := d.tasks[t].pc.slot, Run(s.m, d.log);
    assert Tracks(d.m, run, d.tasks[t].jobs[0], d.tasks[t].pc);
    RunGood(s.m, d.log);
    var q := ResidentWasLoaded(s.m, d.log, i);
    var op, before, r := d.log[q], Run(s.m, d.log[..q]), RunRecords(s.m, d.log)[i].value;
    LoadWasAnswered(before, op.id, op.offset, op.hdr, op.pay);
    j, k := LoadCameFromFlash(s, es, before, op);
    o, header, code := op.offset, r.header, r.code;
    assert Vouches(r, run.slots[i], run.rams[i]);
    OffsetOfLogged(s, es, q);
    assert Trusted(d.m, d.tasks[t].pc, i);
    if (i, at) in d.m.icache {
      assert LineAgrees(d.m, (i, at));
    }
  }

  lemma OffsetOfLogged(s: State, es: seq<Event>, n: nat)
    requires Initial(s) && Play(s, es).Some? && n < |Play(s, es).value.log|
    ensures var op := Play(s, es).value.log[n]; op.Ensure? ==> FindOffsetIn(s.registry, op.id) == Some(op.offset)
  {
    hide FindOffsetIn, Play, OpsBy, Operating, AllPerform;
    EveryRunIsRecorded(s, es);
    var d := Play(s, es).value;
    var t := d.authors[n];
    assert Accounted(s, d, t);
    var jobs := s.tasks[t].jobs;
    LoggedOffset(s.registry, d.log, d.authors, n, Operating(s.registry, jobs[..Served(jobs, d.tasks[t])]));
  }
}
