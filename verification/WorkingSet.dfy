/** Working sets that fit load once, and a prefetch spares the module just called. */
module WorkingSet {
  import opened Bytes
  import opened Crc
  import opened Header
  import opened Storage
  import opened Overlay
  import opened OverlayRuns

  // ---- Counting slots ----

  function Occupied(m: Manager, n: nat): set<nat>
    requires n <= |m.slots|
  {
    if n == 0 then {}
    else Occupied(m, n - 1) + (if m.slots[n - 1].resident.Some? then {n - 1} else {})
  }

  function Held(m: Manager, n: nat): set<u32>
    requires n <= |m.slots|
  {
    if n == 0 then {}
    else Held(m, n - 1) + (if m.slots[n - 1].resident.Some? then {m.slots[n - 1].resident.value} else {})
  }

  function Unpinned(m: Manager, n: nat): set<nat>
    requires n <= |m.slots|
  {
    if n == 0 then {} else Unpinned(m, n - 1) + (if m.slots[n - 1].pinned then {} else {n - 1})
  }

  lemma {:induction false} Members(m: Manager, n: nat)
    requires n <= |m.slots|
    ensures forall i: nat :: i in Occupied(m, n) <==> i < n && m.slots[i].resident.Some?
    ensures forall i: nat :: i in Unpinned(m, n) <==> i < n && !m.slots[i].pinned
    ensures forall x :: x in Held(m, n) <==> exists i: nat :: i < n && m.slots[i].resident == Some(x)
  {
    if n > 0 {
      Members(m, n - 1);
      forall x ensures x in Held(m, n) <==> exists i: nat :: i < n && m.slots[i].resident == Some(x) {
        if m.slots[n - 1].resident == Some(x) {
          assert x in Held(m, n);
        }
      }
    }
  }

  /** Distinct residents: as many modules held as slots occupied. */
  lemma {:induction false} OneModuleEach(m: Manager, n: nat)
    requires Unique(m) && n <= |m.slots|
    ensures |Occupied(m, n)| == |Held(m, n)|
  {
    hide Unique, Held, Occupied;
    if n == 0 {
      NoneYet(m);
    } else {
      OneModuleEach(m, n - 1);
      if m.slots[n - 1].resident.Some? {
        NotHeldBefore(m, n - 1);
        OneMore(Occupied(m, n - 1), n - 1);
        OneMore(Held(m, n - 1), m.slots[n - 1].resident.value);
      }
      NextSlot(m, n - 1);
    }
  }

  lemma NoneYet(m: Manager)
    ensures Occupied(m, 0) == {} && Held(m, 0) == {}
  {
  }

  lemma NextSlot(m: Manager, i: nat)
    requires i < |m.slots|
    ensures m.slots[i].resident.Some? ==>
              Occupied(m, i + 1) == Occupied(m, i) + {i} && Held(m, i + 1) == Held(m, i) + {m.slots[i].resident.value}
    ensures m.slots[i].resident.None? ==> Occupied(m, i + 1) == Occupied(m, i) && Held(m, i + 1) == Held(m, i)
  {
  }

  lemma OneMore<T>(s: set<T>, x: T)
    requires x !in s
    ensures |s + {x}| == |s| + 1
  {
  }

  lemma NotHeldBefore(m: Manager, i: nat)
    requires Unique(m) && i < |m.slots| && m.slots[i].resident.Some?
    ensures m.slots[i].resident.value !in Held(m, i) && i !in Occupied(m, i)
  {
    hide Held, Occupied, Unpinned;
    Members(m, i);
  }

  lemma RoomLeft(m: Manager)
    requires Unique(m) && |Held(m, |m.slots|)| < |Unpinned(m, |m.slots|)|
    ensures exists i :: 0 <= i < |m.slots| && EmptyUnpinned(m.slots[i])
  {
    var n := |m.slots|;
    OneModuleEach(m, n);
    Members(m, n);
    if Unpinned(m, n) <= Occupied(m, n) {
      SubsetSize(Unpinned(m, n), Occupied(m, n));
    }
    var i :| i in Unpinned(m, n) && i !in Occupied(m, n);
    assert EmptyUnpinned(m.slots[i]);
  }

  // ---- The working set ----

  /** Modules asked for. */
  function Asked(ops: seq<Op>): set<u32>
    requires forall k :: 0 <= k < |ops| ==> ops[k].Ensure?
  {
    if ops == [] then {} else Asked(ops[..|ops| - 1]) + {ops[|ops| - 1].id}
  }

  /** Every operation is a request, and every request succeeds. */
  ghost predicate Succeeds(m: Manager, ops: seq<Op>)
    requires Shaped(m) && AllAdmissible(ops)
  {
    ops == [] ||
    var n := |ops| - 1;
    && Succeeds(m, ops[..n]) && ops[n].Ensure?
    && EnsureResident(Run(m, ops[..n]), ops[n].id, ops[n].offset, ops[n].hdr, ops[n].pay).1.Ok?
  }

  ghost predicate SamePins(m: Manager, d: Manager) {
    |m.slots| == |d.slots| && forall i :: 0 <= i < |m.slots| ==> m.slots[i].pinned == d.slots[i].pinned
  }

  lemma {:induction false} SameUnpinned(m: Manager, d: Manager, n: nat)
    requires SamePins(m, d) && n <= |m.slots|
    ensures Unpinned(m, n) == Unpinned(d, n)
  {
    if n > 0 {
      SameUnpinned(m, d, n - 1);
    }
  }

  /** A request that loads while some unpinned slot is empty displaces nothing. */
  lemma LoadIntoEmpty(m: Manager, op: Op)
    requires Shaped(m) && Admissible(op) && op.Ensure? && Find(m, op.id).None?
    requires EnsureResident(m, op.id, op.offset, op.hdr, op.pay).1.Ok?
    requires exists i :: 0 <= i < |m.slots| && EmptyUnpinned(m.slots[i])
    ensures var d := Apply(m, op);
            SamePins(m, d) && d.hooks == m.hooks + 1 && Held(d, |d.slots|) == Held(m, |m.slots|) + {op.id}
  {
    hide Crc32, DecodeHeader, FindFrom;
    var d := Apply(m, op);
    var v := EnsureResident(m, op.id, op.offset, op.hdr, op.pay).1.value;
    assert m.slots[v].resident.None?;
    Members(m, |m.slots|);
    Members(d, |d.slots|);
    HeldGrows(m, d, v, op.id);
  }

  lemma HeldGrows(m: Manager, d: Manager, v: nat, id: u32)
    requires |m.slots| == |d.slots| && v < |m.slots| && m.slots[v].resident.None? && d.slots[v].resident == Some(id)
    requires forall j :: 0 <= j < |m.slots| && j != v ==> d.slots[j].resident == m.slots[j].resident
    ensures Held(d, |d.slots|) == Held(m, |m.slots|) + {id}
  {
    var n := |m.slots|;
    Members(m, n);
    Members(d, n);
    forall x ensures x in Held(d, n) <==> x in Held(m, n) + {id} {
      if x in Held(m, n) {
        var i: nat :| i < n && m.slots[i].resident == Some(x);
        assert d.slots[i].resident == Some(x);
      }
      if x in Held(d, n) {
        var i: nat :| i < n && d.slots[i].resident == Some(x);
        assert i == v || m.slots[i].resident == Some(x);
      }
      assert x == id ==> d.slots[v].resident == Some(x);
    }
  }

  /** A request that hits loads nothing and moves nothing. */
  lemma HitMovesNothing(m: Manager, op: Op)
    requires Shaped(m) && Admissible(op) && op.Ensure? && Find(m, op.id).Some?
    ensures var d := Apply(m, op);
            SamePins(m, d) && d.hooks == m.hooks && Held(d, |d.slots|) == Held(m, |m.slots|)
            && op.id in Held(m, |m.slots|)
  {
    hide Crc32, DecodeHeader, FindFrom;
    var n, d := |m.slots|, Apply(m, op);
    SameHeld(m, d, n);
    Members(m, n);
    assert m.slots[Find(m, op.id).value].resident == Some(op.id);
  }

  lemma {:induction false} SameHeld(m: Manager, d: Manager, n: nat)
    requires |m.slots| == |d.slots| && n <= |m.slots|
    requires forall i :: 0 <= i < |m.slots| ==> d.slots[i].resident == m.slots[i].resident
    ensures Held(d, n) == Held(m, n)
  {
    if n > 0 {
      SameHeld(m, d, n - 1);
    }
  }

  lemma NotHeldIsMiss(m: Manager, id: u32)
    ensures Find(m, id).None? <==> id !in Held(m, |m.slots|)
  {
    Members(m, |m.slots|);
    if Find(m, id).Some? {
      assert m.slots[Find(m, id).value].resident == Some(id);
    } else {
      assert forall i: nat :: i < |m.slots| ==> !IsResident(m.slots[i], id);
    }
  }

  /**
   * From empty slots, a successful run that asks for no more distinct modules than there are unpinned
   * slots loads each of them once and still holds all of them at the end.
   */
  lemma {:induction false} WorkingSetLoadsOnce(m: Manager, ops: seq<Op>)
    requires IsFresh(m) && AllAdmissible(ops) && |ops| < U64 - 2 && Succeeds(m, ops)
    requires forall k :: 0 <= k < |ops| ==> ops[k].Ensure?
    requires |Asked(ops)| <= |Unpinned(m, |m.slots|)|
    ensures var d := Run(m, ops);
            && d.hooks == m.hooks + |Asked(ops)| && Held(d, |d.slots|) == Asked(ops) && SamePins(m, d)
    decreases |ops|
  {
    hide Apply, EnsureResident, Unpinned, FindFrom, Held, Stamped, Backed, RunRecords, CacheAgrees, Timely, RunRecent;
    if ops == [] {
      NothingHeld(m, |m.slots|);
    } else {
      var before, op := ops[..|ops| - 1], ops[|ops| - 1];
      SubsetAsked(Asked(before), op.id);
      WorkingSetLoadsOnce(m, before);
      RunGood(m, before);
      var d := Run(m, before);
      NotHeldIsMiss(d, op.id);
      if op.id in Asked(before) {
        assert Asked(ops) == Asked(before);
        HitMovesNothing(d, op);
      } else {
        SameUnpinned(m, d, |m.slots|);
        RoomLeft(d);
        LoadIntoEmpty(d, op);
      }
    }
  }

  lemma SubsetAsked(s: set<u32>, x: u32)
    ensures |s| <= |s + {x}| && (x !in s ==> |s + {x}| == |s| + 1)
  {
    if x in s {
      assert s + {x} == s;
    }
  }

  lemma {:induction false} NothingHeld(m: Manager, n: nat)
    requires n <= |m.slots| && forall i :: 0 <= i < |m.slots| ==> m.slots[i].resident.None?
    ensures Held(m, n) == {}
  {
    if n > 0 {
      NothingHeld(m, n - 1);
    }
  }

  // ---- Prefetch after a call ----

  /** Slot `i` holds the module used last of all. */
  ghost predicate Newest(m: Manager, i: nat) {
    && i < |m.slots| && m.slots[i].resident.Some?
    && forall j :: 0 <= j < |m.slots| && j != i && m.slots[j].resident.Some? ==>
         m.slots[j].generation < m.slots[i].generation
  }

  lemma CalledIsNewest(m: Manager, id: u32, offset: u32, hdr: Reader, pay: Reader)
    requires Good(m) && Room(m, 1) && ValidReader(hdr) && ValidReader(pay)
    requires EnsureResident(m, id, offset, hdr, pay).1.Ok?
    ensures var (d, r) := EnsureResident(m, id, offset, hdr, pay);
            Newest(d, r.value) && d.slots[r.value].resident == Some(id)
  {
    hide Crc32, DecodeHeader, SelectSlot, FindFrom;
  }

  /** The newest module is chosen as victim exactly when its slot is the only unpinned one. */
  lemma NewestChosenIffOnlyUnpinned(m: Manager, i: nat)
    requires Good(m) && Room(m, 0) && Newest(m, i)
    ensures SelectSlot(m.slots) == Some(i) <==>
            !m.slots[i].pinned && forall j :: 0 <= j < |m.slots| && j != i ==> m.slots[j].pinned
  {
    hide SelectSlot, CacheAgrees;
    Selection(m.slots);
  }

  /**
   * `call_and_prefetch`: with another unpinned slot, the module just called stays resident, in place
   * and unchanged, whatever becomes of the prefetch.
   */
  lemma PrefetchSparesCalled(m: Manager, current: u32, next: u32, o1: u32, h1: Reader, p1: Reader,
                             o2: u32, h2: Reader, p2: Reader)
    requires Good(m) && Room(m, 2) && Fair(h1, p1) && ValidReader(h2) && ValidReader(p2)
    requires EnsureResident(m, current, o1, h1, p1).1.Ok?
    requires var (d, r) := EnsureResident(m, current, o1, h1, p1);
             d.slots[r.value].pinned || exists j :: 0 <= j < |d.slots| && j != r.value && !d.slots[j].pinned
    ensures var (d, r) := EnsureResident(m, current, o1, h1, p1);
            var e := EnsureResident(d, next, o2, h2, p2).0;
            Kept(d, e, r.value) && e.slots[r.value].resident == Some(current)
  {
    hide Crc32, DecodeHeader, SelectSlot, FindFrom, EnsureResident, Good;
    GoodShaped(m);
    var (d, r) := EnsureResident(m, current, o1, h1, p1);
    EnsureGood(m, current, o1, h1, p1);
    CounterStep(m, current, o1, h1, p1);
    CalledIsNewest(m, current, o1, h1, p1);
    NewestChosenIffOnlyUnpinned(d, r.value);
    GoodShaped(d);
    EnsureKeeps(d, next, o2, h2, p2, r.value);
  }
}
