/** What every interleaving of tasks keeps: the manager behaves as if its operations ran one at a time. */
module TaskRuns {
  import opened Bytes
  import opened Crc
  import opened Header
  import opened Storage
  import opened Overlay
  import opened OverlayRuns
  import opened Engine
  import opened Tasks

  // ---- The manager, mid-operation, against the one its completed operations give ----

  /** Equal but for the instruction cache. */
  ghost predicate Like(m: Manager, d: Manager) {
    m.slots == d.slots && m.rams == d.rams && m.counter == d.counter && m.hooks == d.hooks
  }

  /** The load of `id` holds a ticket its header earned. */
  ghost predicate Admitted(d: Manager, id: u32, header: seq<byte>, t: Ticket) {
    Find(d, id).None? && |header| == HEADER_SIZE && Admit(d, id, header) == Ok(t) && TicketFits(d, t)
  }

  /** As `d` but with other bytes at the start of slot `i`: those from `k` on are still `d`'s. */
  ghost predicate Overwritten(m: Manager, d: Manager, i: nat, k: nat) {
    && i < |m.rams| == |d.rams| && k <= |d.rams[i]| == |m.rams[i]|
    && Like(m, d.(rams := d.rams[i := m.rams[i]])) && m.rams[i][k..] == d.rams[i][k..]
  }

  ghost predicate Matches(m: Manager, t: Ticket) {
    TicketFits(m, t) && Crc32(m.rams[t.slot][..t.header.codeSize]) == t.header.payloadCrc
  }

  /** `m` is `d` with the work of a task at `pc` on its first job done so far. */
  ghost predicate Tracks(m: Manager, d: Manager, job: Job, pc: Pc) {
    Shaped(d) && Shaped(m) &&
    match pc
    case WantHeader(_) => Like(m, d) && Loads(job) && Find(d, job.id).None?
    case ReadingHeader(_) => Like(m, d) && Loads(job) && Find(d, job.id).None?
    case GotHeader(_, b) => Like(m, d) && Loads(job) && Find(d, job.id).None? && |b| == HEADER_SIZE
    case WantPayload(_, b, t) => Like(m, d) && Loads(job) && Admitted(d, job.id, b, t)
    case Streaming(_, b, t, k) =>
      Overwritten(m, d, t.slot, k) && Loads(job) && Admitted(d, job.id, b, t) && k <= t.header.codeSize
    case Loaded(_, b, t) => Overwritten(m, d, t.slot, t.header.codeSize) && Loads(job) && Admitted(d, job.id, b, t)
    case Checked(_, b, t) =>
      Overwritten(m, d, t.slot, t.header.codeSize) && Loads(job) && Admitted(d, job.id, b, t) && Matches(m, t)
    case Synced(_, b, t) =>
      && Overwritten(m, d.(hooks := d.hooks + 1), t.slot, t.header.codeSize)
      && Loads(job) && Admitted(d, job.id, b, t) && Matches(m, t)
    case Ready(i) => Like(m, d) && Loads(job) && i < |m.slots| && m.slots[i].resident == Some(job.id)
    case Running(i, _, _) => Like(m, d) && Loads(job) && i < |m.slots| && m.slots[i].resident == Some(job.id)
    case _ => Like(m, d)
  }

  // ---- The instruction cache, mid-operation ----

  ghost predicate LineAgrees(m: Manager, l: Line) {
    l.0 < |m.rams| && l.1 < |m.rams[l.0]| && l in m.icache && m.icache[l] == m.rams[l.0][l.1]
  }

  /** Slots whose cached lines must agree with RAM: resident ones not being written; from the hook to residency, all. */
  ghost predicate Trusted(m: Manager, pc: Pc, i: nat) {
    i < |m.slots| &&
    match pc
    case Streaming(_, _, t, k) => m.slots[i].resident.Some? && (k == 0 || i != t.slot)
    case Loaded(_, _, t) => m.slots[i].resident.Some? && i != t.slot
    case Checked(_, _, t) => m.slots[i].resident.Some? && i != t.slot
    case Synced(_, _, t) => true
    case _ => m.slots[i].resident.Some?
  }

  ghost predicate CacheTracks(m: Manager, pc: Pc) {
    forall l :: l in m.icache && Trusted(m, pc, l.0) ==> LineAgrees(m, l)
  }

  /** Applies the operations a step completes, at most one. */
  ghost function Extended(d: Manager, ops: seq<Op>): (r: Manager)
    requires Shaped(d) && |ops| <= 1 && AllAdmissible(ops)
    ensures Shaped(r)
  {
    if ops == [] then d else Apply(d, ops[0])
  }

  // ---- One step of the task that holds the manager ----

  lemma LocalOps(m: Manager, flash: seq<byte>, reg: Registry, job: Job, pc: Pc, c: Choice)
    requires LocalCan(m, flash, job, pc, c)
    ensures var ops := Local(m, flash, reg, job, pc, c).ops; |ops| <= 1 && AllAdmissible(ops)
  {
    hide Crc32, DecodeHeader, Admit, FindFrom, FindOffsetIn, FlashRead;
  }

  lemma EntersTracks(m: Manager, d: Manager, flash: seq<byte>, reg: Registry, job: Job, pc: Pc, c: Choice)
    requires LocalCan(m, flash, job, pc, c) && Tracks(m, d, job, pc) && pc.Entered?
    ensures var f := Local(m, flash, reg, job, pc, c);
            |f.ops| <= 1 && AllAdmissible(f.ops) && Tracks(f.m, Extended(d, f.ops), job, f.pc)
  {
    hide Crc32, DecodeHeader, Admit;
    LocalOps(m, flash, reg, job, pc, c);
    assert Find(m, job.id) == Find(d, job.id);
  }

  lemma HeaderTracks(m: Manager, d: Manager, flash: seq<byte>, reg: Registry, job: Job, pc: Pc, c: Choice)
    requires LocalCan(m, flash, job, pc, c) && Tracks(m, d, job, pc)
    requires pc.WantHeader? || pc.ReadingHeader? || pc.WantPayload?
    ensures var f := Local(m, flash, reg, job, pc, c);
            |f.ops| <= 1 && AllAdmissible(f.ops) && Tracks(f.m, Extended(d, f.ops), job, f.pc)
  {
    hide Crc32, DecodeHeader, SelectSlot, FindFrom, Admit;
    LocalOps(m, flash, reg, job, pc, c);
  }

  lemma AdmitTracks(m: Manager, d: Manager, flash: seq<byte>, reg: Registry, job: Job, pc: Pc, c: Choice)
    requires LocalCan(m, flash, job, pc, c) && Tracks(m, d, job, pc) && pc.GotHeader?
    ensures var f := Local(m, flash, reg, job, pc, c);
            |f.ops| <= 1 && AllAdmissible(f.ops) && Tracks(f.m, Extended(d, f.ops), job, f.pc)
  {
    hide Crc32, DecodeHeader, SelectSlot, FindFrom, Admit;
    LocalOps(m, flash, reg, job, pc, c);
    SameAdmission(m, d, job.id, pc.header);
  }

  lemma SameAdmission(m: Manager, d: Manager, id: u32, header: seq<byte>)
    requires Like(m, d)
    ensures Admit(m, id, header) == Admit(d, id, header)
  {
    hide DecodeHeader, SelectSlot;
  }

  lemma StreamTracks(m: Manager, d: Manager, flash: seq<byte>, reg: Registry, job: Job, pc: Pc, c: Choice)
    requires LocalCan(m, flash, job, pc, c) && Tracks(m, d, job, pc) && pc.Streaming?
    ensures var f := Local(m, flash, reg, job, pc, c);
            |f.ops| <= 1 && AllAdmissible(f.ops) && Tracks(f.m, Extended(d, f.ops), job, f.pc)
  {
    hide Crc32, DecodeHeader, SelectSlot, FindFrom, Admit;
    LocalOps(m, flash, reg, job, pc, c);
    match c
    case Dma(n) => ArrivingTracks(m, d, flash, pc.offset, pc.ticket, pc.done, n);
    case Refuse => RefusedTracks(m, d, job, pc);
    case _ =>
  }

  lemma ArrivingTracks(m: Manager, d: Manager, flash: seq<byte>, o: u32, t: Ticket, k: nat, n: nat)
    requires TicketFits(m, t) && PayloadInFlash(flash, o, t) && k + n <= t.header.codeSize
             && Overwritten(m, d, t.slot, k)
    ensures Overwritten(Streamed(m, flash, o, t, k, n), d, t.slot, k + n)
  {
    var i, after := t.slot, Streamed(m, flash, o, t, k, n);
    assert after.rams[i][k + n..] == m.rams[i][k + n..] == m.rams[i][k..][n..]
               == d.rams[i][k..][n..] == d.rams[i][k + n..];
  }

  /** A payload read refused before its first byte leaves everything as it was. */
  lemma RefusedTracks(m: Manager, d: Manager, job: Job, pc: Pc)
    requires Tracks(m, d, job, pc) && pc.Streaming? && pc.done == 0 && Loads(job)
    ensures Like(m, EnsureResident(d, job.id, pc.offset, Answer(pc.header), Refusal()).0)
  {
    hide Crc32, DecodeHeader, SelectSlot, FindFrom, Admit;
    var i := pc.ticket.slot;
    assert m.rams[i] == m.rams[i][0..] == d.rams[i][0..] == d.rams[i];
    assert d.rams[i := m.rams[i]] == d.rams;
    CleanOverwrite(d, i, pc.ticket.header.codeSize);
  }

  /** The payload as it arrived is what the completed load is recorded with. */
  lemma ArrivedTracks(m: Manager, d: Manager, id: u32, o: u32, b: seq<byte>, t: Ticket)
    requires Shaped(d) && Admitted(d, id, b, t) && Overwritten(m, d, t.slot, t.header.codeSize)
    ensures var code := m.rams[t.slot][..t.header.codeSize];
            && Like(m, Overwrite(d, t.slot, code))
            && EnsureResident(d, id, o, Answer(b), Answer(code)) == Finish(Overwrite(d, t.slot, code), id, t)
  {
    hide Crc32, DecodeHeader, SelectSlot, FindFrom, Admit, Finish;
    var n, code := t.header.codeSize, m.rams[t.slot][..t.header.codeSize];
    assert m.rams[t.slot] == code + m.rams[t.slot][n..];
  }

  lemma LoadedTracks(m: Manager, d: Manager, flash: seq<byte>, reg: Registry, job: Job, pc: Pc, c: Choice)
    requires LocalCan(m, flash, job, pc, c) && Tracks(m, d, job, pc) && pc.Loaded?
    ensures var f := Local(m, flash, reg, job, pc, c);
            |f.ops| <= 1 && AllAdmissible(f.ops) && Tracks(f.m, Extended(d, f.ops), job, f.pc)
  {
    hide Crc32, DecodeHeader, SelectSlot, FindFrom, Admit, EnsureResident;
    LocalOps(m, flash, reg, job, pc, c);
    ArrivedTracks(m, d, job.id, pc.offset, pc.header, pc.ticket);
    var code := m.rams[pc.ticket.slot][..pc.ticket.header.codeSize];
    assert Overwrite(d, pc.ticket.slot, code).rams[pc.ticket.slot][..pc.ticket.header.codeSize] == code;
  }

  lemma CheckedTracks(m: Manager, d: Manager, flash: seq<byte>, reg: Registry, job: Job, pc: Pc, c: Choice)
    requires LocalCan(m, flash, job, pc, c) && Tracks(m, d, job, pc) && pc.Checked?
    ensures var f := Local(m, flash, reg, job, pc, c);
            |f.ops| <= 1 && AllAdmissible(f.ops) && Tracks(f.m, Extended(d, f.ops), job, f.pc)
  {
    hide Crc32, Admitted, Apply, Shaped, Like;
    HookTracks(m, d, pc.ticket.slot, pc.ticket.header.codeSize);
  }

  lemma HookTracks(m: Manager, d: Manager, i: nat, k: nat)
    requires Shaped(m) && Overwritten(m, d, i, k)
    ensures Shaped(Hooked(m)) && Overwritten(Hooked(m), d.(hooks := d.hooks + 1), i, k)
  {
  }

  lemma SyncedTracks(m: Manager, d: Manager, flash: seq<byte>, reg: Registry, job: Job, pc: Pc, c: Choice)
    requires LocalCan(m, flash, job, pc, c) && Tracks(m, d, job, pc) && pc.Synced?
    ensures var f := Local(m, flash, reg, job, pc, c);
            |f.ops| <= 1 && AllAdmissible(f.ops) && Tracks(f.m, Extended(d, f.ops), job, f.pc)
  {
    hide Crc32, DecodeHeader, SelectSlot, FindFrom, Admit, EnsureResident;
    LocalOps(m, flash, reg, job, pc, c);
    var before := m.(hooks := d.hooks);
    ArrivedTracks(before, d, job.id, pc.offset, pc.header, pc.ticket);
    var code := m.rams[pc.ticket.slot][..pc.ticket.header.codeSize];
    assert Overwrite(d, pc.ticket.slot, code).rams[pc.ticket.slot][..pc.ticket.header.codeSize] == code;
  }

  lemma LocalTracks(m: Manager, d: Manager, flash: seq<byte>, reg: Registry, job: Job, pc: Pc, c: Choice)
    requires LocalCan(m, flash, job, pc, c) && Tracks(m, d, job, pc)
    ensures var f := Local(m, flash, reg, job, pc, c);
            |f.ops| <= 1 && AllAdmissible(f.ops) && Tracks(f.m, Extended(d, f.ops), job, f.pc)
  {
    if pc.Entered? {
      EntersTracks(m, d, flash, reg, job, pc, c);
    } else if pc.WantHeader? || pc.ReadingHeader? || pc.WantPayload? {
      HeaderTracks(m, d, flash, reg, job, pc, c);
    } else if pc.GotHeader? {
      AdmitTracks(m, d, flash, reg, job, pc, c);
    } else if pc.Streaming? {
      StreamTracks(m, d, flash, reg, job, pc, c);
    } else if pc.Loaded? {
      LoadedTracks(m, d, flash, reg, job, pc, c);
    } else if pc.Checked? {
      CheckedTracks(m, d, flash, reg, job, pc, c);
    } else if pc.Synced? {
      SyncedTracks(m, d, flash, reg, job, pc, c);
    } else {
      hide Crc32, DecodeHeader, SelectSlot, FindFrom, Admit, EnsureResident, FindOffsetIn;
    }
  }

  /** Unless it empties the cache, a step trusts no slot it did not trust, and writes none it goes on trusting. */
  ghost predicate TrustKept(m: Manager, pc: Pc, f: Effect, i: nat) {
    || f.m.icache == map[]
    || (f.m.icache == m.icache
        && (Trusted(f.m, f.pc, i) ==>
              Trusted(m, pc, i) && i < |f.m.rams| == |m.rams| && f.m.rams[i] == m.rams[i]))
  }

  lemma StreamTrust(m: Manager, flash: seq<byte>, reg: Registry, job: Job, pc: Pc, c: Choice, i: nat)
    requires LocalCan(m, flash, job, pc, c) && |m.rams| == |m.slots|
    requires pc.Streaming? || pc.Loaded? || pc.Checked? || pc.Synced?
    ensures TrustKept(m, pc, Local(m, flash, reg, job, pc, c), i)
  {
    hide Crc32, WrapAdd;
  }

  lemma OtherTrust(m: Manager, flash: seq<byte>, reg: Registry, job: Job, pc: Pc, c: Choice, i: nat)
    requires LocalCan(m, flash, job, pc, c) && |m.rams| == |m.slots|
    requires !pc.Streaming? && !pc.Loaded? && !pc.Checked? && !pc.Synced?
    ensures TrustKept(m, pc, Local(m, flash, reg, job, pc, c), i)
  {
    hide FindFrom, Admit, FindOffsetIn, FlashRead;
  }

  lemma LocalTrust(m: Manager, flash: seq<byte>, reg: Registry, job: Job, pc: Pc, c: Choice, i: nat)
    requires LocalCan(m, flash, job, pc, c) && |m.rams| == |m.slots|
    ensures TrustKept(m, pc, Local(m, flash, reg, job, pc, c), i)
  {
    hide *;
    if pc.Streaming? || pc.Loaded? || pc.Checked? || pc.Synced? {
      StreamTrust(m, flash, reg, job, pc, c, i);
    } else {
      OtherTrust(m, flash, reg, job, pc, c, i);
    }
  }

  lemma LocalCache(m: Manager, flash: seq<byte>, reg: Registry, job: Job, pc: Pc, c: Choice)
    requires LocalCan(m, flash, job, pc, c) && CacheTracks(m, pc) && |m.rams| == |m.slots|
    ensures var f := Local(m, flash, reg, job, pc, c); CacheTracks(f.m, f.pc)
  {
    hide Local, LocalCan, Trusted;
    var f := Local(m, flash, reg, job, pc, c);
    forall l | l in f.m.icache && Trusted(f.m, f.pc, l.0) ensures LineAgrees(f.m, l) {
      LocalTrust(m, flash, reg, job, pc, c, l.0);
    }
  }

  /** A fetch into the cache changes nothing else, and what it brings in agrees with RAM. */
  lemma FillTracks(m: Manager, d: Manager, job: Job, pc: Pc, i: nat, a: nat)
    requires Tracks(m, d, job, pc) && CacheTracks(m, pc) && i < |m.rams| && a < |m.rams[i]|
    ensures Tracks(FillLine(m, i, a), d, job, pc) && CacheTracks(FillLine(m, i, a), pc)
  {
    hide Tracks, Trusted;
    SameButCache(m, FillLine(m, i, a), d, job, pc);
    var n := FillLine(m, i, a);
    forall l | l in n.icache && Trusted(n, pc, l.0) ensures LineAgrees(n, l) {
      TrustIgnoresCache(m, n, pc, l.0);
      if l in m.icache {
        assert LineAgrees(m, l);
      }
    }
  }

  lemma TrustIgnoresCache(m: Manager, n: Manager, pc: Pc, i: nat)
    requires Like(m, n)
    ensures Trusted(m, pc, i) == Trusted(n, pc, i)
  {
  }

  lemma SameButCache(m: Manager, n: Manager, d: Manager, job: Job, pc: Pc)
    requires Tracks(m, d, job, pc) && Like(m, n)
    ensures Tracks(n, d, job, pc)
  {
    hide Crc32, Admitted;
  }

  // ---- The invariant ----

  ghost function HolderPc(s: State): Pc {
    if s.manager.Some? && s.manager.value < |s.tasks| then s.tasks[s.manager.value].pc else Idle
  }

  ghost function HolderJob(s: State): Job {
    if s.manager.Some? && s.manager.value < |s.tasks| && s.tasks[s.manager.value].jobs != []
    then s.tasks[s.manager.value].jobs[0]
    else ReadJob
  }

  /**
   * The manager is what its completed operations, run one after the other, make of `m0`, but for the
   * instruction cache and for the unfinished work of whoever holds the lock.
   */
  ghost predicate Inv(s: State, m0: Manager) {
    && Locks(s) && Shaped(m0) && AllAdmissible(s.log)
    && Tracks(s.m, Run(m0, s.log), HolderJob(s), HolderPc(s)) && CacheTracks(s.m, HolderPc(s))
  }

  lemma ExtendsRun(m0: Manager, log: seq<Op>, ops: seq<Op>)
    requires Shaped(m0) && AllAdmissible(log) && AllAdmissible(ops) && |ops| <= 1
    ensures AllAdmissible(log + ops) && Run(m0, log + ops) == Extended(Run(m0, log), ops)
  {
    hide Apply;
    if ops == [] {
      assert log + ops == log;
    } else {
      assert (log + ops)[..|log|] == log && (log + ops)[|log|] == ops[0];
    }
  }

  /** A step that neither holds nor takes the manager lock leaves the manager alone. */
  lemma OutsideLeavesManager(m: Manager, flash: seq<byte>, reg: Registry, job: Job, pc: Pc, c: Choice)
    requires LocalCan(m, flash, job, pc, c) && !InManager(pc)
    ensures var f := Local(m, flash, reg, job, pc, c); f.m == m && f.ops == []
  {
    hide FindOffsetIn;
  }

  lemma TurnKeepsInv(s: State, m0: Manager, t: nat, c: Choice)
    requires Inv(s, m0) && Can(s, Turn(t, c))
    ensures Inv(Do(s, Turn(t, c)), m0)
  {
    hide Local, LocalCan, Tracks, CacheTracks, Run, Locks, Extended;
    LocksKept(s, Turn(t, c));
    var task := s.tasks[t];
    var job, pc, d := task.jobs[0], task.pc, Run(m0, s.log);
    var f := Local(s.m, s.flash, s.registry, job, pc, c);
    var next := Do(s, Turn(t, c));
    HolderIs(s); HolderIs(next);
    LocalFits(s.m, s.flash, s.registry, job, pc, c);
    if InManager(pc) || pc.WantManager? {
      IdleTracks(s.m, d, HolderJob(s), job, HolderPc(s), pc);
      TracksShaped(s.m, d, job, pc);
      LocalTracks(s.m, d, s.flash, s.registry, job, pc, c);
      LocalCache(s.m, s.flash, s.registry, job, pc, c);
      ExtendsRun(m0, s.log, f.ops);
      IdleTracks(f.m, Run(m0, next.log), job, HolderJob(next), f.pc, HolderPc(next));
    } else {
      OutsideLeavesManager(s.m, s.flash, s.registry, job, pc, c);
      assert s.log + [] == s.log;
    }
  }

  lemma TracksShaped(m: Manager, d: Manager, job: Job, pc: Pc)
    requires Tracks(m, d, job, pc)
    ensures Shaped(m) && Shaped(d)
  {
  }

  /** Outside the manager, whose turn it is does not matter. */
  lemma IdleTracks(m: Manager, d: Manager, job: Job, other: Job, pc: Pc, at: Pc)
    requires Tracks(m, d, job, pc) && CacheTracks(m, pc)
    requires (pc == at && job == other) || (!InManager(pc) && !InManager(at))
    ensures Tracks(m, d, other, at) && CacheTracks(m, at)
  {
    hide Like, Shaped, LineAgrees, Admitted, Overwritten, Matches;
  }

  lemma HolderIs(s: State)
    requires Locks(s)
    ensures s.manager.Some? <==> InManager(HolderPc(s))
    ensures forall t :: 0 <= t < |s.tasks| && InManager(s.tasks[t].pc) ==>
              && s.manager == Some(t) && s.tasks[t].jobs != []
              && HolderPc(s) == s.tasks[t].pc && HolderJob(s) == s.tasks[t].jobs[0]
  {
  }

  lemma StepKeepsInv(s: State, m0: Manager, e: Event)
    requires Inv(s, m0) && Can(s, e)
    ensures Inv(Do(s, e), m0)
  {
    match e
    case Turn(t, c) => TurnKeepsInv(s, m0, t, c);
    case Fill(i, a) =>
      hide Tracks, CacheTracks, Run;
      LocksKept(s, e);
      FillTracks(s.m, Run(m0, s.log), HolderJob(s), HolderPc(s), i, a);
  }

  lemma {:induction false} EveryRunKeepsInv(s: State, es: seq<Event>)
    requires Initial(s) && Play(s, es).Some?
    ensures Inv(Play(s, es).value, s.m)
    decreases |es|
  {
    hide Can, Do, Inv;
    if es == [] {
      StartsInv(s);
    } else {
      var n := |es| - 1;
      EveryRunKeepsInv(s, es[..n]);
      StepKeepsInv(Play(s, es[..n]).value, s.m, es[n]);
    }
  }

  lemma StartsInv(s: State)
    requires Initial(s)
    ensures Inv(s, s.m)
  {
  }
}
