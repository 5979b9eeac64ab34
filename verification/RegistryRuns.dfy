/** The module registry refines a bounded map in which the last registration wins. */
module RegistryRuns {
  import opened Bytes
  import opened Header
  import opened Storage
  import opened Engine

  // ---- The reference: a map with a size limit ----

  function MapRegister(known: map<u32, u32>, max: nat, id: u32, offset: u32)
    : (map<u32, u32>, Result<(), OverlayError>)
  {
    if id in known || |known| < max then (known[id := offset], Ok(())) else (known, Err(OverlayError.Storage))
  }

  function MapRegisterAll(known: map<u32, u32>, max: nat, found: seq<(u32, u32)>)
    : (map<u32, u32>, Result<(), OverlayError>)
    decreases |found|
  {
    if found == [] then (known, Ok(()))
    else
      var (next, result) := MapRegister(known, max, found[0].0, found[0].1);
      if result.Err? then (next, result) else MapRegisterAll(next, max, found[1..])
  }

  function Get(known: map<u32, u32>, id: u32): Option<u32> {
    if id in known then Some(known[id]) else None
  }

  // ---- The registry's shape ----

  /** Entries in use. */
  function Used(reg: Registry): (n: nat)
    ensures n <= |reg| && (n < |reg| ==> reg[n].None?) && forall i :: 0 <= i < n ==> reg[i].Some?
  {
    if reg == [] || reg[0].None? then 0
    else
      assert forall i :: 1 <= i < |reg| ==> reg[i] == reg[1..][i - 1];
      1 + Used(reg[1..])
  }

  /** A dense prefix of distinct identifiers, and nothing after it. */
  ghost predicate Dense(reg: Registry) {
    && (forall i :: Used(reg) <= i < |reg| ==> reg[i].None?)
    && (forall i, j :: 0 <= i < j < Used(reg) ==> reg[i].value.moduleId != reg[j].value.moduleId)
  }

  ghost predicate Represents(reg: Registry, known: map<u32, u32>) {
    |known| == Used(reg) && forall id :: FindOffsetIn(reg, id) == Get(known, id)
  }

  lemma UsedIs(reg: Registry, n: nat)
    requires n <= |reg| && (forall i :: 0 <= i < n ==> reg[i].Some?) && (n < |reg| ==> reg[n].None?)
    ensures Used(reg) == n
  {
  }

  /** What a lookup finds, stated without the scan. */
  lemma {:induction false} LookupFinds(reg: Registry, id: u32, i: nat)
    requires i <= |reg|
    ensures match OffsetFrom(reg, id, i)
            case None => forall j :: i <= j < |reg| && reg[j].Some? ==> reg[j].value.moduleId != id
            case Some(o) => exists j :: i <= j < |reg| && reg[j] == Some(Registration(id, o))
                                        && forall k :: i <= k < j && reg[k].Some? ==> reg[k].value.moduleId != id
    decreases |reg| - i
  {
    if i < |reg| {
      if reg[i].Some? && reg[i].value.moduleId == id {
        assert reg[i] == Some(Registration(id, reg[i].value.flashOffset));
      } else {
        LookupFinds(reg, id, i + 1);
        if OffsetFrom(reg, id, i).Some? {
          var o := OffsetFrom(reg, id, i).value;
          var j :| i + 1 <= j < |reg| && reg[j] == Some(Registration(id, o))
                   && forall k :: i + 1 <= k < j && reg[k].Some? ==> reg[k].value.moduleId != id;
          assert forall k :: i <= k < j && reg[k].Some? ==> reg[k].value.moduleId != id;
        }
      }
    }
  }

  /** Registering changes the lookup of that identifier alone. */
  lemma LookupAfterRegister(reg: Registry, id: u32, offset: u32, x: u32)
    requires Dense(reg) && Register(reg, id, offset).1.Ok?
    ensures FindOffsetIn(Register(reg, id, offset).0, x) == if x == id then Some(offset) else FindOffsetIn(reg, x)
  {
    var next := Register(reg, id, offset).0;
    LookupFinds(reg, x, 0);
    LookupFinds(next, x, 0);
    var i := PlaceFrom(reg, id, 0).value;
    assert next[i] == Some(Registration(id, offset));
    assert forall j :: 0 <= j < |reg| && j != i ==> next[j] == reg[j];
  }

  lemma RegisterDense(reg: Registry, id: u32, offset: u32)
    requires Dense(reg)
    ensures var (next, r) := Register(reg, id, offset);
            && Dense(next)
            && (FindOffsetIn(reg, id).Some? ==> r == Ok(()) && Used(next) == Used(reg))
            && (FindOffsetIn(reg, id).None? && Used(reg) < |reg| ==> r == Ok(()) && Used(next) == Used(reg) + 1)
            && (FindOffsetIn(reg, id).None? && Used(reg) == |reg| ==> r == Err(OverlayError.Storage) && next == reg)
  {
    hide PlaceFrom, FindOffsetIn, Used;
    PlaceIs(reg, id);
    if PlaceFrom(reg, id, 0).Some? {
      UsedAfter(reg, PlaceFrom(reg, id, 0).value, Registration(id, offset));
    }
  }

  /** Where a registration goes: over the entry with its identifier, else just past the prefix. */
  lemma PlaceIs(reg: Registry, id: u32)
    requires Dense(reg)
    ensures var p := PlaceFrom(reg, id, 0);
            if FindOffsetIn(reg, id).Some? then p.Some? && p.value < Used(reg) && reg[p.value].value.moduleId == id
            else
              && p == (if Used(reg) < |reg| then Some(Used(reg)) else None)
              && forall i :: 0 <= i < Used(reg) ==> reg[i].value.moduleId != id
  {
    LookupFinds(reg, id, 0);
    var n := Used(reg);
    if FindOffsetIn(reg, id).Some? {
      var j :| 0 <= j < |reg| && reg[j] == Some(Registration(id, FindOffsetIn(reg, id).value));
      assert Takes(reg[j], id);
    } else if n < |reg| {
      assert Takes(reg[n], id);
    }
  }

  lemma UsedAfter(reg: Registry, i: nat, e: Registration)
    requires Dense(reg) && i <= Used(reg) && i < |reg|
    ensures Used(reg[i := Some(e)]) == if i < Used(reg) then Used(reg) else Used(reg) + 1
  {
    UsedIs(reg[i := Some(e)], if i < Used(reg) then Used(reg) else Used(reg) + 1);
  }

  lemma Sized(known: map<u32, u32>, id: u32, offset: u32)
    ensures known[id := offset].Keys == known.Keys + {id}
    ensures |known[id := offset]| == if id in known then |known| else |known| + 1
  {
    assert known[id := offset].Keys == known.Keys + {id};
    assert id in known ==> known.Keys + {id} == known.Keys;
  }

  /** One registration: same answer as the map's, and the registry still stands for the map. */
  lemma RegisterRefines(reg: Registry, known: map<u32, u32>, id: u32, offset: u32)
    requires Dense(reg) && Represents(reg, known)
    ensures var (next, r) := Register(reg, id, offset);
            var (after, s) := MapRegister(known, |reg|, id, offset);
            Dense(next) && Represents(next, after) && r == s
  {
    hide Dense, Register, FindOffsetIn;
    RegisterDense(reg, id, offset);
    assert FindOffsetIn(reg, id) == Get(known, id);
    var (next, r) := Register(reg, id, offset);
    if r.Ok? {
      forall x ensures FindOffsetIn(next, x) == Get(known[id := offset], x) {
        LookupAfterRegister(reg, id, offset, x);
      }
      Sized(known, id, offset);
    }
  }

  lemma {:induction false} RegisterAllRefines(reg: Registry, known: map<u32, u32>, found: seq<(u32, u32)>)
    requires Dense(reg) && Represents(reg, known)
    ensures var (next, r) := RegisterAll(reg, found);
            var (after, s) := MapRegisterAll(known, |reg|, found);
            Dense(next) && Represents(next, after) && r == s
    decreases |found|
  {
    hide Dense, Represents, Register, MapRegister;
    if found != [] {
      RegisterRefines(reg, known, found[0].0, found[0].1);
      var (next, r) := Register(reg, found[0].0, found[0].1);
      if r.Ok? {
        RegisterAllRefines(next, MapRegister(known, |reg|, found[0].0, found[0].1).0, found[1..]);
      }
    }
  }

  // ---- Runs ----

  datatype RegistryOp = RegisterOne(id: u32, offset: u32) | MountAt(storage: Reader, base: u32)

  ghost predicate Sound(op: RegistryOp) {
    op.MountAt? ==> ValidReader(op.storage)
  }

  ghost predicate AllSound(ops: seq<RegistryOp>) {
    forall k :: 0 <= k < |ops| ==> Sound(ops[k])
  }

  /** The registry and what each operation returned, as a count of modules. */
  ghost function RunRegistry(reg: Registry, ops: seq<RegistryOp>): (r: (Registry, seq<Result<nat, OverlayError>>))
    requires AllSound(ops)
    ensures |r.0| == |reg|
  {
    if ops == [] then (reg, [])
    else
      var (before, outs) := RunRegistry(reg, ops[..|ops| - 1]);
      match ops[|ops| - 1]
      case RegisterOne(id, offset) =>
        var (next, r) := Register(before, id, offset);
        (next, outs + [match r case Ok(_) => Ok(1) case Err(e) => Err(e)])
      case MountAt(storage, base) =>
        var (next, r) := MountInto(before, storage, base);
        (next, outs + [r])
  }

  ghost function RunMap(known: map<u32, u32>, max: nat, ops: seq<RegistryOp>)
    : (map<u32, u32>, seq<Result<nat, OverlayError>>)
    requires AllSound(ops)
  {
    if ops == [] then (known, [])
    else
      var (before, outs) := RunMap(known, max, ops[..|ops| - 1]);
      match ops[|ops| - 1]
      case RegisterOne(id, offset) =>
        var (next, r) := MapRegister(before, max, id, offset);
        (next, outs + [match r case Ok(_) => Ok(1) case Err(e) => Err(e)])
      case MountAt(storage, base) =>
        match Discover(storage, base, max)
        case Err(e) => (before, outs + [Err(e)])
        case Ok(found) =>
          var (next, r) := MapRegisterAll(before, max, found);
          (next, outs + [match r case Ok(_) => Ok(|found|) case Err(e) => Err(e)])
  }

  lemma {:induction false} EmptyIsEmpty(reg: Registry, id: u32, i: nat)
    requires i <= |reg| && forall j :: 0 <= j < |reg| ==> reg[j] == None
    ensures OffsetFrom(reg, id, i) == None
    decreases |reg| - i
  {
    if i < |reg| {
      EmptyIsEmpty(reg, id, i + 1);
    }
  }

  /**
   * Any run of registrations and mounts, from an empty table of any size, over any storage: the
   * table stays a dense prefix of distinct identifiers, every operation answers as the map does,
   * and every lookup then finds what the map holds.
   */
  lemma {:induction false} RegistryIsLastWinsMap(max: nat, ops: seq<RegistryOp>)
    requires AllSound(ops)
    ensures var (reg, outs) := RunRegistry(EmptyRegistry(max), ops);
            var (known, answers) := RunMap(map[], max, ops);
            Dense(reg) && Represents(reg, known) && outs == answers && |known| <= max
    decreases |ops|
  {
    hide Register, MapRegister, RegisterAll, MapRegisterAll, Discover, FindOffsetIn, Dense, Represents;
    if ops == [] {
      EmptyRepresents(max);
    } else {
      var n := |ops| - 1;
      RegistryIsLastWinsMap(max, ops[..n]);
      var (reg, outs) := RunRegistry(EmptyRegistry(max), ops[..n]);
      var (known, answers) := RunMap(map[], max, ops[..n]);
      match ops[n] {
        case RegisterOne(id, offset) =>
          RegisterRefines(reg, known, id, offset);
        case MountAt(storage, base) =>
          if Discover(storage, base, max).Ok? {
            RegisterAllRefines(reg, known, Discover(storage, base, max).value);
          }
      }
    }
    Bounded(RunRegistry(EmptyRegistry(max), ops).0, RunMap(map[], max, ops).0);
  }

  lemma Bounded(reg: Registry, known: map<u32, u32>)
    requires Represents(reg, known)
    ensures |known| <= |reg|
  {
  }

  lemma EmptyRepresents(max: nat)
    ensures Dense(EmptyRegistry(max)) && Represents(EmptyRegistry(max), map[])
  {
    UsedIs(EmptyRegistry(max), 0);
    forall id ensures FindOffsetIn(EmptyRegistry(max), id) == None {
      EmptyIsEmpty(EmptyRegistry(max), id, 0);
    }
  }

  // ---- When a batch fits ----

  function IdsOf(found: seq<(u32, u32)>): set<u32> {
    set k | 0 <= k < |found| :: found[k].0
  }

  /** A batch is registered whole exactly when all identifiers, old and new, fit the table. */
  lemma {:induction false} BatchFits(known: map<u32, u32>, max: nat, found: seq<(u32, u32)>)
    requires |known| <= max
    ensures MapRegisterAll(known, max, found).1.Ok? <==> |known.Keys + IdsOf(found)| <= max
    ensures MapRegisterAll(known, max, found).1.Ok? ==>
              MapRegisterAll(known, max, found).0.Keys == known.Keys + IdsOf(found)
    decreases |found|
  {
    hide MapRegister;
    if found == [] {
      assert known.Keys + IdsOf(found) == known.Keys;
    } else {
      var id, offset, rest := found[0].0, found[0].1, found[1..];
      BatchStep(known, max, found);
      if id in known || |known| < max {
        BatchFits(known[id := offset], max, rest);
      }
    }
  }

  lemma BatchStep(known: map<u32, u32>, max: nat, found: seq<(u32, u32)>)
    requires |known| <= max && found != []
    ensures var id, offset, rest := found[0].0, found[0].1, found[1..];
            && known[id := offset].Keys + IdsOf(rest) == known.Keys + IdsOf(found)
            && (if id in known || |known| < max
                then |known[id := offset]| <= max
                     && MapRegisterAll(known, max, found) == MapRegisterAll(known[id := offset], max, rest)
                else |known.Keys + IdsOf(found)| > max && MapRegisterAll(known, max, found).1.Err?)
  {
    hide IdsOf;
    var id, offset := found[0].0, found[0].1;
    IdsOfStep(found);
    Sized(known, id, offset);
    SubsetSize(known[id := offset].Keys, known.Keys + IdsOf(found));
  }

  lemma IdsOfStep(found: seq<(u32, u32)>)
    requires found != []
    ensures IdsOf(found) == {found[0].0} + IdsOf(found[1..])
  {
    var id, rest := found[0].0, found[1..];
    forall x | x in IdsOf(found) ensures x in {id} + IdsOf(rest) {
      var k :| 0 <= k < |found| && found[k].0 == x;
      if k > 0 { assert rest[k - 1] == found[k]; }
    }
    forall x | x in IdsOf(rest) ensures x in IdsOf(found) {
      var k :| 0 <= k < |rest| && rest[k].0 == x;
      assert found[k + 1] == rest[k];
    }
  }

  // ---- A batch of distinct modules into an empty table ----

  ghost predicate DistinctIds(found: seq<(u32, u32)>) {
    forall i, j :: 0 <= i < j < |found| ==> found[i].0 != found[j].0
  }

  /** The registry holds exactly the modules of `found`, each at its offset. */
  ghost predicate HoldsExactly(reg: Registry, found: seq<(u32, u32)>) {
    && (forall i :: 0 <= i < |found| ==> FindOffsetIn(reg, found[i].0) == Some(found[i].1))
    && (forall x :: FindOffsetIn(reg, x).Some? ==> exists i :: 0 <= i < |found| && found[i].0 == x)
  }

  lemma {:induction false} BatchMap(known: map<u32, u32>, max: nat, found: seq<(u32, u32)>)
    requires DistinctIds(found) && |known| + |found| <= max
    ensures var (after, r) := MapRegisterAll(known, max, found);
            && r == Ok(())
            && (forall i :: 0 <= i < |found| ==> Get(after, found[i].0) == Some(found[i].1))
            && (forall x :: (forall i :: 0 <= i < |found| ==> found[i].0 != x) ==> Get(after, x) == Get(known, x))
    decreases |found|
  {
    if found != [] {
      var grown, rest := known[found[0].0 := found[0].1], found[1..];
      Sized(known, found[0].0, found[0].1);
      BatchMap(grown, max, rest);
      var after := MapRegisterAll(known, max, found).0;
      assert after == MapRegisterAll(grown, max, rest).0;
      assert forall i :: 0 <= i < |rest| ==> rest[i] == found[i + 1];
      assert Get(after, found[0].0) == Get(grown, found[0].0);
      forall i | 0 <= i < |found| ensures Get(after, found[i].0) == Some(found[i].1) {
        if i > 0 { assert Get(after, rest[i - 1].0) == Some(rest[i - 1].1); }
      }
      forall x | forall i :: 0 <= i < |found| ==> found[i].0 != x ensures Get(after, x) == Get(known, x) {
        assert found[0].0 != x;
      }
    }
  }

  lemma BatchRegisters(max: nat, found: seq<(u32, u32)>)
    requires DistinctIds(found) && |found| <= max
    ensures var (reg, r) := RegisterAll(EmptyRegistry(max), found);
            r == Ok(()) && HoldsExactly(reg, found)
  {
    hide FindOffsetIn, RegisterAll, MapRegisterAll, Dense;
    EmptyRepresents(max);
    RegisterAllRefines(EmptyRegistry(max), map[], found);
    BatchMap(map[], max, found);
  }
}
