/** What tasks do to flash: exactly what their completed write jobs say; and runs in which that matters. */
module TaskFlash {
  import opened Bytes
  import opened Crc
  import opened Header
  import opened Storage
  import opened Overlay
  import opened OverlayRuns
  import opened Engine
  import opened Discovery
  import opened PackedImages
  import opened Tasks

  // ---- Flash is what was last written ----

  /** The event takes the first job off a task's list: the job it completes. */
  ghost function Completed(s: State, e: Event): Option<Job>
    requires Can(s, e)
  {
    if e.Turn? && Do(s, e).tasks[e.task].jobs != s.tasks[e.task].jobs then Some(s.tasks[e.task].jobs[0]) else None
  }

  /** The jobs the tasks completed in a run, in the order they did. */
  ghost function Finished(s: State, es: seq<Event>): seq<Job>
    requires Play(s, es).Some?
  {
    if es == [] then []
    else
      var n := |es| - 1;
      Finished(s, es[..n]) + match Completed(Play(s, es[..n]).value, es[n])
                           case Some(job) => [job]
                           case None => []
  }

  /** Flash after those jobs: as the last of them that is a write leaves it. */
  ghost function LastWritten(flash: seq<byte>, jobs: seq<Job>): seq<byte> {
    if jobs == [] then flash
    else if jobs[|jobs| - 1].WriteJob? then jobs[|jobs| - 1].after
    else LastWritten(flash, jobs[..|jobs| - 1])
  }

  lemma JobShrinks(jobs: seq<Job>)
    requires jobs != []
    ensures jobs[1..] != jobs
  {
  }

  lemma LocalWrites(m: Manager, flash: seq<byte>, reg: Registry, job: Job, pc: Pc, c: Choice)
    requires LocalCan(m, flash, job, pc, c)
    ensures var f := Local(m, flash, reg, job, pc, c);
            f.flash == if job.WriteJob? && f.pc.Idle? then job.after else flash
  {
    hide Crc32, Admit, FindFrom, FindOffsetIn, FlashRead, DecodeHeader;
  }

  /** A step changes flash only by completing a write job, and then to what the job says. */
  lemma StepWrites(s: State, e: Event)
    requires Can(s, e)
    ensures Do(s, e).flash
            == match Completed(s, e)
               case Some(WriteJob(after)) => after
               case _ => s.flash
  {
    hide Local, LocalCan;
    if e.Turn? {
      LocalWrites(s.m, s.flash, s.registry, s.tasks[e.task].jobs[0], s.tasks[e.task].pc, e.choice);
      JobShrinks(s.tasks[e.task].jobs);
    }
  }

  /** In every reachable state flash is what the last write job completed left, or what it was at first. */
  lemma {:induction false} FlashIsLastWritten(s: State, es: seq<Event>)
    requires Play(s, es).Some?
    ensures Play(s, es).value.flash == LastWritten(s.flash, Finished(s, es))
    decreases |es|
  {
    hide Can, Do, Completed;
    if es != [] {
      var n := |es| - 1;
      FlashIsLastWritten(s, es[..n]);
      StepWrites(Play(s, es[..n]).value, es[n]);
      var before := Finished(s, es[..n]);
      match Completed(Play(s, es[..n]).value, es[n])
      case Some(job) => assert (before + [job])[..|before|] == before;
      case None => assert before + [] == before;
    }
  }

  // ---- What is left to chance ----

  /** Storage may refuse a header read, and a payload read that has not begun; the load fails and nothing changes. */
  lemma ReadsCanFail(s: State, t: nat)
    requires t < |s.tasks| && s.tasks[t].jobs != [] && Tasks.Fits(s.tasks[t].jobs[0], s.tasks[t].pc)
    requires s.tasks[t].pc.ReadingHeader?
             || (s.tasks[t].pc.Streaming? && s.tasks[t].pc.done == 0 && TicketFits(s.m, s.tasks[t].pc.ticket))
    ensures Can(s, Turn(t, Refuse))
    ensures var d := Do(s, Turn(t, Refuse));
            && d.m == s.m && d.flash == s.flash && d.tasks == s.tasks[t := Task(s.tasks[t].jobs[1..], Idle)]
            && |d.log| == |s.log| + 1
  {
    hide Crc32, FindFrom;
  }

  /**
   * A body that runs may fetch any byte of its slot, once it has fetched the one at its entry offset, as long
   * as it has fetches left, and may return at any time. Neither changes anything but the task.
   */
  lemma BodiesAreFree(s: State, t: nat, at: nat)
    requires t < |s.tasks| && s.tasks[t].jobs != [] && s.tasks[t].jobs[0].CallJob? && s.tasks[t].pc.Running?
    requires s.tasks[t].pc.slot < |s.m.slots| == |s.m.rams|
    ensures var pc := s.tasks[t].pc;
            && (Can(s, Turn(t, Fetch(at))) <==>
                0 < pc.left && at < |s.m.rams[pc.slot]| && (pc.started || at == s.m.slots[pc.slot].entryOffset))
            && (Can(s, Turn(t, Fetch(at))) ==>
                  var d := Do(s, Turn(t, Fetch(at)));
                  && d.m == s.m && d.flash == s.flash && d.log == s.log
                  && d.tasks == s.tasks[t := Task(s.tasks[t].jobs, Running(pc.slot, pc.left - 1, true))])
    ensures Can(s, Turn(t, Return))
    ensures var d := Do(s, Turn(t, Return));
            && d.m == s.m && d.flash == s.flash && d.log == s.log
            && d.tasks == s.tasks[t := Task(s.tasks[t].jobs[1..], Idle)]
  {
    assert s.log + [] == s.log;
  }

  /** The cache may take in any byte of any slot at any time, as it is in RAM then, and keeps it. */
  lemma CacheIsFree(s: State, i: nat, a: nat)
    requires i < |s.m.rams| && a < |s.m.rams[i]|
    ensures Can(s, Fill(i, a))
    ensures var d := Do(s, Fill(i, a));
            && d == s.(m := d.m) && d.m == s.m.(icache := d.m.icache)
            && (i, a) in d.m.icache
            && d.m.icache[(i, a)] == (if (i, a) in s.m.icache then s.m.icache[(i, a)] else s.m.rams[i][a])
            && forall l :: l != (i, a) ==> (l in d.m.icache <==> l in s.m.icache)
                                           && (l in s.m.icache ==> d.m.icache[l] == s.m.icache[l])
  {
  }

  // ---- Flash does change between the two reads of a load ----

  /**
   * Two tasks over a one-entry registry: the first is to call module `id`, whose container is registered at
   * 0, the second to write flash.
   */
  ghost function Scene(m: Manager, flash: seq<byte>, manager: Option<nat>, bus: Option<nat>, id: u32, pc: Pc,
                       writer: Task, log: seq<Op>): State
  {
    State(m, flash, [Some(Registration(id, 0))], manager, bus, [Task([CallJob(id, 1)], pc), writer], log,
          ByFirst(|log|))
  }

  /** Everything in the log is the first task's. */
  ghost function ByFirst(n: nat): (authors: seq<nat>)
    ensures |authors| == n
  {
    if n == 0 then [] else ByFirst(n - 1) + [0]
  }

  lemma OneMore(s: State, es: seq<Event>, p: State, e: Event)
    requires Play(s, es) == Some(p) && Can(p, e)
    ensures Play(s, es + [e]) == Some(Do(p, e))
  {
    hide Can, Do;
    assert (es + [e])[..|es|] == es;
  }

  /** A step of the calling task, by its own state alone. */
  lemma CallerStep(s: State, es: seq<Event>, p: State, c: Choice, q: State)
    requires Play(s, es) == Some(p) && |p.tasks| == 2 && p.tasks[0].jobs != []
    requires var task := p.tasks[0];
             && (task.pc.WantManager? ==> p.manager.None?) && (WantsBus(task.pc) ==> p.bus.None?)
             && LocalCan(p.m, p.flash, task.jobs[0], task.pc, c)
             && var f := Local(p.m, p.flash, p.registry, task.jobs[0], task.pc, c);
                && !f.pc.Idle? && |f.ops| <= 1 && q.log == p.log + f.ops
                && q.authors == (if f.ops == [] then p.authors else p.authors + [0])
                && q.m == f.m && q.flash == f.flash && q.registry == p.registry
                && q.manager == Holder(p.manager, 0, InManager(task.pc), InManager(f.pc))
                && q.bus == Holder(p.bus, 0, HoldsBus(task.pc), HoldsBus(f.pc))
                && q.tasks == [Task(task.jobs, f.pc), p.tasks[1]]
    ensures Play(s, es + [Turn(0, c)]) == Some(q)
  {
    hide Play, Local, LocalCan, Holder;
    OneMore(s, es, p, Turn(0, c));
    assert Do(p, Turn(0, c)).tasks == q.tasks;
  }

  lemma OnlyOffset(id: u32)
    ensures FindOffsetIn([Some(Registration(id, 0))], id) == Some(0)
  {
  }

  lemma PlayNothing(s: State)
    ensures Play(s, []) == Some(s)
  {
  }

  lemma ToEntered(m: Manager, flash: seq<byte>, id: u32, writer: Task)
    ensures Play(Scene(m, flash, None, None, id, Idle, writer, []), [Turn(0, Go), Turn(0, Go)])
            == Some(Scene(m, flash, Some(0), None, id, Entered(0), writer, []))
  {
    hide FindFrom, FindOffsetIn, Play;
    var s, go := Scene(m, flash, None, None, id, Idle, writer, []), Turn(0, Go);
    OnlyOffset(id);
    PlayNothing(s);
    CallerStep(s, [], s, Go, Scene(m, flash, None, None, id, WantManager(0), writer, []));
    CallerStep(s, [] + [go], Scene(m, flash, None, None, id, WantManager(0), writer, []), Go,
               Scene(m, flash, Some(0), None, id, Entered(0), writer, []));
    assert [] + [go] + [go] == [go, go];
  }

  /** The call up to its header read, its second lock in hand. */
  lemma ToHeaderRead(m: Manager, flash: seq<byte>, id: u32, writer: Task) returns (es: seq<Event>)
    requires Find(m, id).None?
    ensures |es| == 4
            && Play(Scene(m, flash, None, None, id, Idle, writer, []), es)
               == Some(Scene(m, flash, Some(0), Some(0), id, ReadingHeader(0), writer, []))
  {
    hide FindFrom, FindOffsetIn, Play;
    var s, go := Scene(m, flash, None, None, id, Idle, writer, []), Turn(0, Go);
    ToEntered(m, flash, id, writer);
    CallerStep(s, [go, go], Scene(m, flash, Some(0), None, id, Entered(0), writer, []), Go,
               Scene(m, flash, Some(0), None, id, WantHeader(0), writer, []));
    CallerStep(s, [go, go] + [go], Scene(m, flash, Some(0), None, id, WantHeader(0), writer, []), Go,
               Scene(m, flash, Some(0), Some(0), id, ReadingHeader(0), writer, []));
    es := [go, go] + [go] + [go];
  }

  ghost function Writer(pc: Pc, after: seq<byte>): Task {
    Task([WriteJob(after)], pc)
  }

  lemma HeaderArrives(m: Manager, flash: seq<byte>, writer: Task, id: u32, b: seq<byte>, s: State, es: seq<Event>)
    requires |flash| >= HEADER_SIZE && flash[0..HEADER_SIZE] == b
    requires Play(s, es) == Some(Scene(m, flash, Some(0), Some(0), id, ReadingHeader(0), writer, []))
    ensures Play(s, es + [Turn(0, Go)]) == Some(Scene(m, flash, Some(0), None, id, GotHeader(0, b), writer, []))
  {
    hide Play;
    CallerStep(s, es, Scene(m, flash, Some(0), Some(0), id, ReadingHeader(0), writer, []), Go,
               Scene(m, flash, Some(0), None, id, GotHeader(0, b), writer, []));
  }

  /** A step of the writing task, likewise. */
  lemma WriterStep(s: State, es: seq<Event>, p: State, q: State)
    requires Play(s, es) == Some(p) && |p.tasks| == 2 && p.tasks[1].jobs != []
    requires var task := p.tasks[1];
             && !task.pc.WantManager? && (WantsBus(task.pc) ==> p.bus.None?)
             && LocalCan(p.m, p.flash, task.jobs[0], task.pc, Go)
             && var f := Local(p.m, p.flash, p.registry, task.jobs[0], task.pc, Go);
                && f.ops == [] && q.log == p.log && q.authors == p.authors && q.registry == p.registry
                && q.m == f.m && q.flash == f.flash
                && q.manager == Holder(p.manager, 1, InManager(task.pc), InManager(f.pc))
                && q.bus == Holder(p.bus, 1, HoldsBus(task.pc), HoldsBus(f.pc))
                && q.tasks == [p.tasks[0], Task(if f.pc.Idle? then task.jobs[1..] else task.jobs, f.pc)]
    ensures Play(s, es + [Turn(1, Go)]) == Some(q)
  {
    hide Play, Local, LocalCan, Holder;
    OneMore(s, es, p, Turn(1, Go));
    assert Do(p, Turn(1, Go)).tasks == q.tasks;
    assert p.log + [] == p.log;
  }

  lemma ToBus(m: Manager, flash: seq<byte>, after: seq<byte>, id: u32, pc: Pc, s: State, es: seq<Event>)
    requires Play(s, es) == Some(Scene(m, flash, Some(0), None, id, pc, Writer(Idle, after), []))
    ensures Play(s, es + [Turn(1, Go)] + [Turn(1, Go)])
            == Some(Scene(m, flash, Some(0), Some(1), id, pc, Writer(OnBus, after), []))
  {
    hide Play;
    var p := Scene(m, flash, Some(0), None, id, pc, Writer(WantBus, after), []);
    WriterStep(s, es, Scene(m, flash, Some(0), None, id, pc, Writer(Idle, after), []), p);
    WriterStep(s, es + [Turn(1, Go)], p, Scene(m, flash, Some(0), Some(1), id, pc, Writer(OnBus, after), []));
  }

  /** The whole of the other task's write. */
  lemma Writes(m: Manager, flash: seq<byte>, after: seq<byte>, id: u32, pc: Pc, s: State, es: seq<Event>)
    requires Play(s, es) == Some(Scene(m, flash, Some(0), None, id, pc, Writer(Idle, after), []))
    ensures Play(s, es + [Turn(1, Go)] + [Turn(1, Go)] + [Turn(1, Go)])
            == Some(Scene(m, after, Some(0), None, id, pc, Task([], Idle), []))
  {
    hide Play;
    ToBus(m, flash, after, id, pc, s, es);
    var p := Scene(m, flash, Some(0), Some(1), id, pc, Writer(OnBus, after), []);
    assert p.tasks[1].jobs[1..] == [];
    WriterStep(s, es + [Turn(1, Go)] + [Turn(1, Go)], p, Scene(m, after, Some(0), None, id, pc, Task([], Idle), []));
  }

  /** One way a step of a job at `pc` can go, and what it does. */
  ghost predicate StepIs(m: Manager, flash: seq<byte>, reg: Registry, job: Job, pc: Pc, c: Choice, f: Effect) {
    LocalCan(m, flash, job, pc, c) && Local(m, flash, reg, job, pc, c) == f
  }

  lemma Admitting(m: Manager, flash: seq<byte>, reg: Registry, id: u32, b: seq<byte>, t: Ticket)
    requires Admit(m, id, b) == Ok(t)
    ensures StepIs(m, flash, reg, CallJob(id, 1), GotHeader(0, b), Go, Effect(m, flash, WantPayload(0, b, t), []))
  {
    hide Admit, DecodeHeader, SelectSlot, Crc32, FindFrom, FindOffsetIn, FlashRead, Streamed, Marked, Touched;
  }

  lemma HeaderAdmitted(m: Manager, flash: seq<byte>, id: u32, b: seq<byte>, t: Ticket, writer: Task,
                       s: State, es: seq<Event>)
    requires Admit(m, id, b) == Ok(t)
    requires Play(s, es) == Some(Scene(m, flash, Some(0), None, id, GotHeader(0, b), writer, []))
    ensures Play(s, es + [Turn(0, Go)]) == Some(Scene(m, flash, Some(0), None, id, WantPayload(0, b, t), writer, []))
  {
    hide *;
    Admitting(m, flash, [Some(Registration(id, 0))], id, b, t);
    FromGotHeader(s, es, m, flash, id, b, t, writer);
  }

  lemma FromGotHeader(s: State, es: seq<Event>, m: Manager, flash: seq<byte>, id: u32, b: seq<byte>, t: Ticket,
                      writer: Task)
    requires Play(s, es) == Some(Scene(m, flash, Some(0), None, id, GotHeader(0, b), writer, []))
    requires StepIs(m, flash, [Some(Registration(id, 0))], CallJob(id, 1), GotHeader(0, b), Go,
                    Effect(m, flash, WantPayload(0, b, t), []))
    ensures Play(s, es + [Turn(0, Go)]) == Some(Scene(m, flash, Some(0), None, id, WantPayload(0, b, t), writer, []))
  {
    hide Play, Local;
    CallerStep(s, es, Scene(m, flash, Some(0), None, id, GotHeader(0, b), writer, []), Go,
               Scene(m, flash, Some(0), None, id, WantPayload(0, b, t), writer, []));
  }

  lemma PayloadLocked(m: Manager, flash: seq<byte>, id: u32, b: seq<byte>, t: Ticket, writer: Task,
                      s: State, es: seq<Event>)
    requires Play(s, es) == Some(Scene(m, flash, Some(0), None, id, WantPayload(0, b, t), writer, []))
    ensures Play(s, es + [Turn(0, Go)])
            == Some(Scene(m, flash, Some(0), Some(0), id, Streaming(0, b, t, 0), writer, []))
  {
    hide Play;
    CallerStep(s, es, Scene(m, flash, Some(0), None, id, WantPayload(0, b, t), writer, []), Go,
               Scene(m, flash, Some(0), Some(0), id, Streaming(0, b, t, 0), writer, []));
  }

  /** The payload arrives in one piece. */
  lemma Streams(m: Manager, flash: seq<byte>, id: u32, b: seq<byte>, t: Ticket, code: seq<byte>, writer: Task,
                s: State, es: seq<Event>)
    requires TicketFits(m, t) && 0 < |code| == t.header.codeSize
    requires HEADER_SIZE + |code| <= |flash| && flash[HEADER_SIZE..HEADER_SIZE + |code|] == code
    requires Play(s, es) == Some(Scene(m, flash, Some(0), Some(0), id, Streaming(0, b, t, 0), writer, []))
    ensures Play(s, es + [Turn(0, Dma(|code|))] + [Turn(0, Go)])
            == Some(Scene(Overwrite(m, t.slot, code), flash, Some(0), None, id, Loaded(0, b, t), writer, []))
  {
    hide Play;
    NoWrap(0, HEADER_SIZE);
    var d, n, ram := Overwrite(m, t.slot, code), |code|, m.rams[t.slot];
    assert ram[..0] + flash[HEADER_SIZE..HEADER_SIZE + n] + ram[0 + n..] == code + ram[n..];
    CallerStep(s, es, Scene(m, flash, Some(0), Some(0), id, Streaming(0, b, t, 0), writer, []), Dma(n),
               Scene(d, flash, Some(0), Some(0), id, Streaming(0, b, t, n), writer, []));
    CallerStep(s, es + [Turn(0, Dma(n))], Scene(d, flash, Some(0), Some(0), id, Streaming(0, b, t, n), writer, []), Go,
               Scene(d, flash, Some(0), None, id, Loaded(0, b, t), writer, []));
  }

  /** Checked and synchronised. */
  lemma ToSynced(m: Manager, flash: seq<byte>, id: u32, b: seq<byte>, t: Ticket, writer: Task,
                 s: State, es: seq<Event>)
    requires TicketFits(m, t) && Crc32(m.rams[t.slot][..t.header.codeSize]) == t.header.payloadCrc
    requires Play(s, es) == Some(Scene(m, flash, Some(0), None, id, Loaded(0, b, t), writer, []))
    ensures Play(s, es + [Turn(0, Go)] + [Turn(0, Go)])
            == Some(Scene(Hooked(m), flash, Some(0), None, id, Synced(0, b, t), writer, []))
  {
    hide Play, Crc32;
    CallerStep(s, es, Scene(m, flash, Some(0), None, id, Loaded(0, b, t), writer, []), Go,
               Scene(m, flash, Some(0), None, id, Checked(0, b, t), writer, []));
    CallerStep(s, es + [Turn(0, Go)], Scene(m, flash, Some(0), None, id, Checked(0, b, t), writer, []), Go,
               Scene(Hooked(m), flash, Some(0), None, id, Synced(0, b, t), writer, []));
  }

  /** Marked resident, and called. */
  lemma ToBody(m: Manager, flash: seq<byte>, id: u32, b: seq<byte>, t: Ticket, writer: Task, s: State, es: seq<Event>)
    returns (log: seq<Op>)
    requires TicketFits(m, t)
    requires Play(s, es) == Some(Scene(m, flash, Some(0), None, id, Synced(0, b, t), writer, []))
    ensures Play(s, es + [Turn(0, Go)] + [Turn(0, Go)])
            == Some(Scene(Marked(m, id, t), flash, Some(0), None, id, Running(t.slot, 1, false), writer, log))
  {
    hide Play, Crc32;
    var d := Marked(m, id, t);
    log := [Ensure(id, 0, Answer(b), Answer(m.rams[t.slot][..t.header.codeSize]))];
    CallerStep(s, es, Scene(m, flash, Some(0), None, id, Synced(0, b, t), writer, []), Go,
               Scene(d, flash, Some(0), None, id, Ready(t.slot), writer, log));
    CallerStep(s, es + [Turn(0, Go)], Scene(d, flash, Some(0), None, id, Ready(t.slot), writer, log), Go,
               Scene(d, flash, Some(0), None, id, Running(t.slot, 1, false), writer, log));
  }

  /** The first half of such a run: up to the payload read, over the flash the other task left. */
  lemma AcrossWrite(m: Manager, id: u32, b: seq<byte>, t: Ticket, before: seq<byte>, after: seq<byte>)
    returns (es: seq<Event>)
    requires Find(m, id).None? && Admit(m, id, b) == Ok(t)
    requires |before| >= HEADER_SIZE && before[0..HEADER_SIZE] == b
    ensures var s := Scene(m, before, None, None, id, Idle, Writer(Idle, after), []);
            && |es| == 10
            && Play(s, es[..4])
               == Some(Scene(m, before, Some(0), Some(0), id, ReadingHeader(0), Writer(Idle, after), []))
            && Play(s, es) == Some(Scene(m, after, Some(0), Some(0), id, Streaming(0, b, t, 0), Task([], Idle), []))
  {
    hide Play, Admit, FindFrom, Scene, DecodeHeader, SelectSlot, Crc32;
    var s := Scene(m, before, None, None, id, Idle, Writer(Idle, after), []);
    var e1 := ToHeaderRead(m, before, id, Writer(Idle, after));
    HeaderArrives(m, before, Writer(Idle, after), id, b, s, e1);
    var e2 := e1 + [Turn(0, Go)];
    Writes(m, before, after, id, GotHeader(0, b), s, e2);
    var e3 := e2 + [Turn(1, Go)] + [Turn(1, Go)] + [Turn(1, Go)];
    HeaderAdmitted(m, after, id, b, t, Task([], Idle), s, e3);
    PayloadLocked(m, after, id, b, t, Task([], Idle), s, e3 + [Turn(0, Go)]);
    es := e3 + [Turn(0, Go)] + [Turn(0, Go)];
    assert es[..4] == e1;
  }

  /** The second half: the payload, its check, and the call. */
  lemma ToFetch(m: Manager, flash: seq<byte>, id: u32, b: seq<byte>, t: Ticket, code: seq<byte>,
                s: State, es: seq<Event>)
    returns (more: seq<Event>, log: seq<Op>)
    requires TicketFits(m, t) && 0 < |code| == t.header.codeSize && Crc32(code) == t.header.payloadCrc
    requires HEADER_SIZE + |code| <= |flash| && flash[HEADER_SIZE..HEADER_SIZE + |code|] == code
    requires Play(s, es) == Some(Scene(m, flash, Some(0), Some(0), id, Streaming(0, b, t, 0), Task([], Idle), []))
    ensures es < more
            && Play(s, more) == Some(Scene(Marked(Hooked(Overwrite(m, t.slot, code)), id, t), flash, Some(0), None, id,
                                           Running(t.slot, 1, false), Task([], Idle), log))
  {
    hide Play, Scene, Crc32, Marked, Hooked;
    var d := Overwrite(m, t.slot, code);
    assert d.rams[t.slot][..|code|] == code;
    Streams(m, flash, id, b, t, code, Task([], Idle), s, es);
    var e1 := es + [Turn(0, Dma(|code|))] + [Turn(0, Go)];
    ToSynced(d, flash, id, b, t, Task([], Idle), s, e1);
    var e2 := e1 + [Turn(0, Go)] + [Turn(0, Go)];
    HookedFits(d, t);
    log := ToBody(Hooked(d), flash, id, b, t, Task([], Idle), s, e2);
    more := e2 + [Turn(0, Go)] + [Turn(0, Go)];
  }

  lemma HookedFits(m: Manager, t: Ticket)
    requires TicketFits(m, t)
    ensures TicketFits(Hooked(m), t)
  {
  }

  /**
   * A load whose header is read before and whose payload is read after a write by another task. Flash need
   * hold the module's header only before, and its code only after; the call goes on to its first fetch.
   */
  lemma CallAcrossWrite(m: Manager, v: nat, x: Module, before: seq<byte>, after: seq<byte>)
    returns (es: seq<Event>, j: nat, k: nat)
    requires IsFresh(m) && Packable(x) && PackedImages.Takes(m, v, x)
    requires x.code != [] && x.entryOffset < m.slots[v].capacity
    requires |before| >= 32 && before[0..32] == EncodeHeader(HeaderOf(x))
    requires 32 + |x.code| <= |after| && after[32..32 + |x.code|] == x.code
    ensures var s := Scene(m, before, None, None, x.id, Idle, Writer(Idle, after), []);
            && Initial(s) && j < k < |es| && Play(s, es[..j]).Some? && Play(s, es[..k]).Some? && Play(s, es).Some?
            && var (p, q, d) := (Play(s, es[..j]).value, Play(s, es[..k]).value, Play(s, es).value);
               && |p.tasks| == |q.tasks| == |d.tasks| == 2
               && p.tasks[0].pc.ReadingHeader? && p.flash == before && q.tasks[0].pc.Streaming? && q.flash == after
               && d.tasks[0].pc == Running(v, 1, false) && Can(d, Turn(0, Fetch(x.entryOffset)))
               && v < |d.m.rams| && x.code <= d.m.rams[v]
  {
    hide Play, Admit, EncodeHeader, HeaderOf, FindFrom, SelectSlot, Crc32, Can, Initial, Scene, DecodeHeader;
    var t, b, id := Ticket(v, HeaderOf(x)), EncodeHeader(HeaderOf(x)), x.id;
    AdmitsContainer(m, v, x);
    HeaderOfFields(x);
    TakesRoom(m, v, x);
    var s := Scene(m, before, None, None, id, Idle, Writer(Idle, after), []);
    var first := AcrossWrite(m, id, b, t, before, after);
    var log;
    es, log := ToFetch(m, after, id, b, t, x.code, s, first);
    j, k := 4, |first|;
    assert es[..j] == first[..j] && es[..k] == first;
    InScene(m, before, Some(0), Some(0), id, ReadingHeader(0), Writer(Idle, after), []);
    InScene(m, after, Some(0), Some(0), id, Streaming(0, b, t, 0), Task([], Idle), []);
    var d := Marked(Hooked(Overwrite(m, v, x.code)), id, t);
    InScene(d, after, Some(0), None, id, Running(v, 1, false), Task([], Idle), log);
    StartsAndFetches(m, d, before, after, id, v, x.entryOffset, log);
  }

  lemma InScene(m: Manager, flash: seq<byte>, manager: Option<nat>, bus: Option<nat>, id: u32, pc: Pc, writer: Task,
                log: seq<Op>)
    ensures var s := Scene(m, flash, manager, bus, id, pc, writer, log);
            |s.tasks| == 2 && s.tasks[0].pc == pc && s.flash == flash && s.m == m
  {
  }

  lemma StartsAndFetches(m: Manager, d: Manager, before: seq<byte>, after: seq<byte>, id: u32, v: nat, at: nat,
                         log: seq<Op>)
    requires IsFresh(m) && v < |d.slots| && v < |d.rams| && d.slots[v].entryOffset == at < |d.rams[v]|
    ensures Initial(Scene(m, before, None, None, id, Idle, Writer(Idle, after), []))
    ensures Can(Scene(d, after, Some(0), None, id, Running(v, 1, false), Task([], Idle), log), Turn(0, Fetch(at)))
  {
  }
}
