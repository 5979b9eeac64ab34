/**
 * Tasks sharing one engine and one storage bus, as a step system. A task stops at every `.await`:
 * waiting for the manager lock, which it then holds across the whole operation, waiting for the bus
 * lock, which it holds for one storage operation, and inside the storage operation itself. Between
 * any two steps other tasks may run, writers may change flash, and the instruction cache may fetch.
 */
module Tasks {
  import opened Bytes
  import opened Crc
  import opened Header
  import opened Storage
  import opened Overlay
  import opened OverlayRuns
  import opened Engine

  /** What a task does next. A body that is called fetches at most `fetches` times; a write leaves flash as `after`. */
  datatype Job =
    | CallJob(id: u32, fetches: nat)
    | PrefetchJob(id: u32)
    | EvictJob(id: u32)
    | ReadJob
    | WriteJob(after: seq<byte>)

  /** Where a task is in its first job. `header` is the 32-byte buffer the load read. */
  datatype Pc =
    | Idle
    | WantManager(offset: u32)
    | Entered(offset: u32)
    | WantHeader(offset: u32)
    | ReadingHeader(offset: u32)
    | GotHeader(offset: u32, header: seq<byte>)
    | WantPayload(offset: u32, header: seq<byte>, ticket: Ticket)
    | Streaming(offset: u32, header: seq<byte>, ticket: Ticket, done: nat)
    | Loaded(offset: u32, header: seq<byte>, ticket: Ticket)
    | Checked(offset: u32, header: seq<byte>, ticket: Ticket)
    | Synced(offset: u32, header: seq<byte>, ticket: Ticket)
    | Ready(slot: nat)
    | Running(slot: nat, left: nat, started: bool)
    | WantBus
    | OnBus

  datatype Task = Task(jobs: seq<Job>, pc: Pc)

  /** `log` is a history of the manager operations completed so far, `authors` of the tasks that completed them. */
  datatype State = State(
    m: Manager, flash: seq<byte>, registry: Registry, manager: Option<nat>, bus: Option<nat>, tasks: seq<Task>,
    log: seq<Op>, authors: seq<nat>)

  /** How a step goes, where there is more than one way. */
  datatype Choice = Go | Refuse | Dma(count: nat) | Fetch(at: nat) | Return

  datatype Event = Turn(task: nat, choice: Choice) | Fill(slot: nat, at: nat)

  // ---- Locks ----

  predicate InManager(pc: Pc) {
    !pc.Idle? && !pc.WantManager? && !pc.WantBus? && !pc.OnBus?
  }

  predicate HoldsBus(pc: Pc) {
    pc.ReadingHeader? || pc.Streaming? || pc.OnBus?
  }

  predicate WantsBus(pc: Pc) {
    pc.WantHeader? || pc.WantPayload? || pc.WantBus?
  }

  predicate Loads(job: Job) {
    job.CallJob? || job.PrefetchJob?
  }

  predicate UsesManager(job: Job) {
    Loads(job) || job.EvictJob?
  }

  /** The places a job can be at. */
  predicate Fits(job: Job, pc: Pc) {
    && (pc.WantManager? || pc.Entered? ==> UsesManager(job))
    && (InManager(pc) && !pc.Entered? ==> Loads(job))
    && (pc.Ready? || pc.Running? ==> job.CallJob?)
    && (pc.WantBus? || pc.OnBus? ==> !UsesManager(job))
  }

  // ---- One task's step ----

  /** Storage that answers every read of the right length with `bytes`. */
  function Answer(bytes: seq<byte>): (r: Reader)
    ensures ValidReader(r) && CleanFaults(r)
  {
    (o: nat, buf: seq<byte>) => if |buf| == |bytes| then Done(bytes) else Fault(buf)
  }

  /** Storage that refuses every read. */
  function Refusal(): (r: Reader)
    ensures ValidReader(r) && CleanFaults(r)
  {
    (o: nat, buf: seq<byte>) => Fault(buf)
  }

  predicate TicketFits(m: Manager, t: Ticket) {
    t.slot < |m.slots| && t.slot < |m.rams| && t.header.codeSize <= |m.rams[t.slot]|
  }

  predicate PayloadInFlash(flash: seq<byte>, offset: u32, t: Ticket) {
    WrapAdd(offset, HEADER_SIZE) + t.header.codeSize <= |flash|
  }

  /**
   * Ways a step can go, locks aside. A payload read may be refused only before its first byte
   * arrives: failed reads leave the buffer alone. A body's first fetch is at the slot's entry offset;
   * later ones may be anywhere in the slot.
   */
  predicate LocalCan(m: Manager, flash: seq<byte>, job: Job, pc: Pc, c: Choice) {
    && Fits(job, pc)
    && match pc
       case ReadingHeader(_) => c.Go? || c.Refuse?
       case Streaming(o, b, t, k) =>
         TicketFits(m, t) &&
         (match c
          case Go => k == t.header.codeSize && PayloadInFlash(flash, o, t)
          case Refuse => k == 0
          case Dma(n) => 0 < n && k + n <= t.header.codeSize && PayloadInFlash(flash, o, t)
          case _ => false)
       case Loaded(_, _, t) => c.Go? && TicketFits(m, t)
       case Synced(_, _, t) => c.Go? && TicketFits(m, t)
       case Running(i, left, started) =>
         c.Return?
         || (c.Fetch? && 0 < left && i < |m.rams| && i < |m.slots| && c.at < |m.rams[i]|
             && (started || c.at == m.slots[i].entryOffset))
       case _ => c.Go?
  }

  datatype Effect = Effect(m: Manager, flash: seq<byte>, pc: Pc, ops: seq<Op>)

  /** Where a job starts: the registry lookup comes before any lock. */
  function FirstPc(reg: Registry, job: Job): Pc {
    if !UsesManager(job) then WantBus
    else if job.EvictJob? then WantManager(0)
    else match FindOffsetIn(reg, job.id)
      case None => Idle
      case Some(o) => WantManager(o)
  }

  function AfterLoad(job: Job, i: nat): Pc {
    if job.CallJob? then Ready(i) else Idle
  }

  /** RAM of the loading slot after `n` more bytes arrive from flash. */
  function Streamed(m: Manager, flash: seq<byte>, offset: u32, t: Ticket, k: nat, n: nat): Manager
    requires TicketFits(m, t) && PayloadInFlash(flash, offset, t) && k + n <= t.header.codeSize
  {
    var from, ram := WrapAdd(offset, HEADER_SIZE) + k, m.rams[t.slot];
    m.(rams := m.rams[t.slot := ram[..k] + flash[from..from + n] + ram[k + n..]])
  }

  /**
   * What a step does to manager, flash and task, and the manager operations it completes. `Idle`
   * means the job is over.
   */
  function Local(m: Manager, flash: seq<byte>, reg: Registry, job: Job, pc: Pc, c: Choice): Effect
    requires LocalCan(m, flash, job, pc, c)
  {
    match pc
    case Idle => Effect(m, flash, FirstPc(reg, job), [])
    case WantManager(o) => Effect(m, flash, Entered(o), [])
    case Entered(o) =>
      if job.EvictJob? then Effect(EvictModule(m, job.id).0, flash, Idle, [Op.Evict(job.id)])
      else (
        match Find(m, job.id)
        case Some(i) => Effect(Touched(m, i), flash, AfterLoad(job, i), [Ensure(job.id, o, Refusal(), Refusal())])
        case None => Effect(m, flash, WantHeader(o), [])
      )
    case WantHeader(o) => Effect(m, flash, ReadingHeader(o), [])
    case ReadingHeader(o) =>
      var out := FlashRead(flash, o, Zeros(HEADER_SIZE));
      if c.Refuse? || out.Fault? then Effect(m, flash, Idle, [Ensure(job.id, o, Refusal(), Refusal())])
      else Effect(m, flash, GotHeader(o, out.after), [])
    case GotHeader(o, b) => (
      match Admit(m, job.id, b)
      case Err(_) => Effect(m, flash, Idle, [Ensure(job.id, o, Answer(b), Refusal())])
      case Ok(t) => Effect(m, flash, WantPayload(o, b, t), [])
    )
    case WantPayload(o, b, t) => Effect(m, flash, Streaming(o, b, t, 0), [])
    case Streaming(o, b, t, k) => (
      match c
      case Dma(n) => Effect(Streamed(m, flash, o, t, k, n), flash, Streaming(o, b, t, k + n), [])
      case Go => Effect(m, flash, Loaded(o, b, t), [])
      case _ => Effect(m, flash, Idle, [Ensure(job.id, o, Answer(b), Refusal())])
    )
    case Loaded(o, b, t) =>
      var code := m.rams[t.slot][..t.header.codeSize];
      if Crc32(code) == t.header.payloadCrc then Effect(m, flash, Checked(o, b, t), [])
      else
        var evicted := m.(slots := m.slots[t.slot := Evicted(m.slots[t.slot])]);
        Effect(evicted, flash, Idle, [Ensure(job.id, o, Answer(b), Answer(code))])
    case Checked(o, b, t) => Effect(Hooked(m), flash, Synced(o, b, t), [])
    case Synced(o, b, t) =>
      var code := m.rams[t.slot][..t.header.codeSize];
      Effect(Marked(m, job.id, t), flash, AfterLoad(job, t.slot), [Ensure(job.id, o, Answer(b), Answer(code))])
    case Ready(i) =>
      Effect(m, flash, if CheckCall(m, i, job.id).Ok? then Running(i, job.fetches, false) else Idle, [])
    case Running(i, left, _) => Effect(m, flash, if c.Fetch? then Running(i, left - 1, true) else Idle, [])
    case WantBus => Effect(m, flash, OnBus, [])
    case OnBus => Effect(m, if job.WriteJob? then job.after else flash, Idle, [])
  }

  // ---- The system's step ----

  predicate Can(s: State, e: Event) {
    match e
    case Fill(i, a) => i < |s.m.rams| && a < |s.m.rams[i]|
    case Turn(t, c) =>
      && t < |s.tasks| && s.tasks[t].jobs != []
      && (s.tasks[t].pc.WantManager? ==> s.manager.None?)
      && (WantsBus(s.tasks[t].pc) ==> s.bus.None?)
      && LocalCan(s.m, s.flash, s.tasks[t].jobs[0], s.tasks[t].pc, c)
  }

  /** Who holds a lock after task `t` went from needing it (`had`) to needing it (`has`). */
  function Holder(held: Option<nat>, t: nat, had: bool, has: bool): Option<nat> {
    if has then Some(t) else if had then None else held
  }

  function Do(s: State, e: Event): State
    requires Can(s, e)
  {
    match e
    case Fill(i, a) => s.(m := FillLine(s.m, i, a))
    case Turn(t, c) =>
      var task := s.tasks[t];
      var f := Local(s.m, s.flash, s.registry, task.jobs[0], task.pc, c);
      State(f.m, f.flash, s.registry,
            Holder(s.manager, t, InManager(task.pc), InManager(f.pc)),
            Holder(s.bus, t, HoldsBus(task.pc), HoldsBus(f.pc)),
            s.tasks[t := Task(if f.pc.Idle? then task.jobs[1..] else task.jobs, f.pc)],
            s.log + f.ops, if f.ops == [] then s.authors else s.authors + [t])
  }

  /** The state after a sequence of events, if each was possible when it came. */
  function Play(s: State, es: seq<Event>): Option<State> {
    if es == [] then Some(s)
    else
      match Play(s, es[..|es| - 1])
      case None => None
      case Some(p) => if Can(p, es[|es| - 1]) then Some(Do(p, es[|es| - 1])) else None
  }

  /** Before anything runs: any tasks with any jobs, any flash, registry and instruction cache, fresh slots. */
  ghost predicate Initial(s: State) {
    && IsFresh(s.m) && s.manager.None? && s.bus.None? && s.log == [] && s.authors == []
    && forall t :: 0 <= t < |s.tasks| ==> s.tasks[t].pc.Idle?
  }

  // ---- Mutual exclusion ----

  ghost predicate Locks(s: State) {
    && (forall t :: 0 <= t < |s.tasks| ==> (InManager(s.tasks[t].pc) <==> s.manager == Some(t)))
    && (forall t :: 0 <= t < |s.tasks| ==> (HoldsBus(s.tasks[t].pc) <==> s.bus == Some(t)))
    && (s.manager.Some? ==> s.manager.value < |s.tasks|) && (s.bus.Some? ==> s.bus.value < |s.tasks|)
    && forall t :: 0 <= t < |s.tasks| ==>
         if s.tasks[t].jobs == [] then s.tasks[t].pc.Idle? else Fits(s.tasks[t].jobs[0], s.tasks[t].pc)
  }

  lemma LocalFits(m: Manager, flash: seq<byte>, reg: Registry, job: Job, pc: Pc, c: Choice)
    requires LocalCan(m, flash, job, pc, c)
    ensures var next := Local(m, flash, reg, job, pc, c).pc;
            && Fits(job, next)
            && (InManager(next) ==> InManager(pc) || pc.WantManager?)
            && (HoldsBus(next) ==> HoldsBus(pc) || WantsBus(pc))
  {
    hide Crc32, DecodeHeader, Admit, FindFrom, FindOffsetIn, FlashRead;
  }

  lemma LocksKept(s: State, e: Event)
    requires Locks(s) && Can(s, e)
    ensures Locks(Do(s, e))
  {
    hide Local, LocalCan;
    match e
    case Fill(_, _) =>
    case Turn(t, c) =>
      LocalFits(s.m, s.flash, s.registry, s.tasks[t].jobs[0], s.tasks[t].pc, c);
  }
}
