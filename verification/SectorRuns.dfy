/** Runs of the sector cache over unchanged flash: exactly LRU, and always flash's own bytes. */
module SectorRuns {
  import opened Bytes
  import opened Header
  import opened Storage
  import opened LruTheory
  import opened SectorCache

  /** Slot `s[p]` holds sector `t[p]`. */
  ghost predicate Placed(es: seq<Entry>, t: seq<Id>, s: seq<nat>) {
    && |s| == |t|
    && forall p :: 0 <= p < |s| ==> s[p] < |es| && es[s[p]].sectorId.Some? && es[s[p]].sectorId.value == t[p]
  }

  ghost predicate Falling(es: seq<Entry>, s: seq<nat>, counter: u64) {
    && (forall p :: 0 <= p < |s| ==> s[p] < |es| && es[s[p]].generation <= counter)
    && (forall p, q :: 0 <= p < q < |s| ==> es[s[p]].generation > es[s[q]].generation)
  }

  ghost predicate RestEmpty(es: seq<Entry>, s: seq<nat>) {
    forall i :: 0 <= i < |es| && i !in s ==> es[i].sectorId.None?
  }

  /**
   * Slots `s`, most recently used first, hold the most recently used sectors of `r`, with falling
   * generations; every other slot is empty.
   */
  ghost predicate Ordered(c: Cache, r: seq<Id>, s: seq<nat>) {
    && Distinct(r) && Distinct(s)
    && Placed(c.entries, Top(r, |c.entries|), s)
    && Falling(c.entries, s, c.counter)
    && RestEmpty(c.entries, s)
  }

  /** Sector `id`, as the cache addresses flash. */
  function SectorBytes(flash: seq<byte>, base: u32, id: u32, size: nat): ReadOutcome {
    FlashRead(flash, SectorOffset(base, id, size), Zeros(size))
  }

  /** Every held sector is byte for byte what flash holds. */
  ghost predicate Agrees(c: Cache, flash: seq<byte>, base: u32, size: nat) {
    forall i :: 0 <= i < |c.entries| ==>
      var e := c.entries[i];
      |e.data| == size && (e.sectorId.Some? ==> SectorBytes(flash, base, e.sectorId.value, size) == Done(e.data))
  }

  // ---- The replacement loop ----

  ghost predicate NoneEmpty(es: seq<Entry>, lo: nat, hi: nat) {
    forall j :: lo <= j < hi && j < |es| ==> es[j].sectorId.Some?
  }

  /** The first empty entry is preferred; otherwise the oldest entry is chosen. */
  lemma {:induction false} VictimChoice(es: seq<Entry>, i: nat, target: nat, minGen: u64)
    requires i <= |es| && target < |es|
    ensures VictimFrom(es, i, target, minGen) < |es|
    ensures var v := VictimFrom(es, i, target, minGen);
            if NoneEmpty(es, i, |es|) then
              if i <= v && es[v].generation < minGen
              then forall j :: i <= j < |es| ==> es[v].generation <= es[j].generation
              else v == target && forall j :: i <= j < |es| ==> minGen <= es[j].generation
            else i <= v && es[v].sectorId.None? && NoneEmpty(es, i, v)
    decreases |es| - i
  {
    if i < |es| && es[i].sectorId.Some? {
      if es[i].generation < minGen {
        VictimChoice(es, i + 1, i, es[i].generation);
      } else {
        VictimChoice(es, i + 1, target, minGen);
      }
    }
  }

  function Range(n: nat): set<Id> {
    if n == 0 then {} else Range(n - 1) + {n - 1}
  }

  lemma {:induction false} RangeSize(n: nat)
    ensures |Range(n)| == n && forall i: nat :: i in Range(n) <==> i < n
  {
    if n > 0 {
      RangeSize(n - 1);
    }
  }

  /** Distinct indices below `n`: fewer than `n` of them leave one out, and `n` of them are all. */
  lemma Pigeonhole(s: seq<nat>, n: nat)
    requires Distinct(s) && forall p :: 0 <= p < |s| ==> s[p] < n
    ensures |s| < n ==> exists i :: i in Range(n) && i !in s
    ensures |s| == n ==> forall i :: i in Range(n) ==> i in s
  {
    RangeSize(n);
    DistinctSize(s);
    assert Elements(s) <= Range(n);
    SubsetSize(Elements(s), Range(n));
    if |s| < n {
      assert Elements(s) != Range(n);
      var i :| i in Range(n) && i !in Elements(s);
      assert i !in s;
    }
  }

  /** The victim is outside the order when there is room, and its last slot when there is none. */
  lemma VictimIsLeastRecent(c: Cache, r: seq<Id>, s: seq<nat>)
    requires |c.entries| > 0 && Ordered(c, r, s)
    ensures Victim(c.entries) < |c.entries|
    ensures |s| < |c.entries| ==> Victim(c.entries) !in s
    ensures |s| == |c.entries| ==> Victim(c.entries) == s[|s| - 1]
  {
    hide Touch;
    var es := c.entries;
    VictimChoice(es, 0, 0, U64 - 1);
    Pigeonhole(s, |es|);
    RangeSize(|es|);
    if |s| < |es| {
      var i :| i in Range(|es|) && i !in s;
      assert es[i].sectorId.None?;
    } else {
      forall i | 0 <= i < |es| ensures i in s && es[i].sectorId.Some? {
        assert i in Range(|es|);
      }
      FullVictim(es, s, c.counter);
    }
  }

  lemma FullVictim(es: seq<Entry>, s: seq<nat>, counter: u64)
    requires |s| == |es| > 0 && Falling(es, s, counter)
    requires NoneEmpty(es, 0, |es|) && forall i :: 0 <= i < |es| ==> i in s
    ensures Victim(es) == s[|s| - 1]
  {
    hide VictimFrom, NoneEmpty;
    var v, last := Victim(es), s[|s| - 1];
    VictimChoice(es, 0, 0, U64 - 1);
    assert es[last].generation <= counter;
    assert v in s && last in s;
    var p :| 0 <= p < |s| && s[p] == v;
    assert es[v].generation <= es[last].generation;
    assert p == |s| - 1;
  }

  // ---- One step ----

  /** What a hit finds is in the order. */
  lemma FoundIsOrdered(c: Cache, r: seq<Id>, s: seq<nat>, id: u32) returns (p: nat)
    requires Ordered(c, r, s) && FindFrom(c.entries, id, 0).Some?
    ensures p < |s| && s[p] == FindFrom(c.entries, id, 0).value && Top(r, |c.entries|)[p] == id
  {
    var i := FindFrom(c.entries, id, 0).value;
    assert i in s;
    p :| 0 <= p < |s| && s[p] == i;
  }

  function MoveFront(s: seq<nat>, p: nat): (u: seq<nat>)
    requires p < |s|
    ensures |u| == |s|
    ensures forall q :: 0 <= q < |u| ==> u[q] == s[Source(p, q)]
  {
    [s[p]] + (s[..p] + s[p + 1..])
  }

  function Source(p: nat, q: nat): nat {
    if q == 0 then p else if q <= p then q - 1 else q
  }

  lemma MoveFrontElements(s: seq<nat>, p: nat)
    requires p < |s| && Distinct(s)
    ensures Distinct(MoveFront(s, p)) && forall i :: i in s ==> i in MoveFront(s, p)
  {
    var u := MoveFront(s, p);
    forall i | i in s ensures i in u {
      var q :| 0 <= q < |s| && s[q] == i;
      assert u[if q == p then 0 else if q < p then q + 1 else q] == i;
    }
  }

  /** A new generation is above all others, unless the counter wrapped. */
  predicate Newest(c: Cache, others: bool) {
    c.counter + 1 < U64 || !others
  }

  lemma HitKeepsOrder(c: Cache, r: seq<Id>, s: seq<nat>, p: nat)
    requires Ordered(c, r, s) && p < |s| && Newest(c, |s| > 1)
    ensures Ordered(Hit(c, s[p]), Touch(r, Top(r, |c.entries|)[p]), MoveFront(s, p))
  {
    hide Touch, Top, MoveFront, Source, Placed, Falling, Distinct;
    var n, t := |c.entries|, Top(r, |c.entries|);
    PlacedSize(c.entries, t, s);
    TouchDistinct(r, t[p]);
    MoveFrontElements(s, p);
    TopMoves(r, n, p);
    HitPlaced(c.entries, t, s, p, Bump(c.counter));
    HitFalling(c.entries, s, p, c.counter, Bump(c.counter));
    HitRestEmpty(c.entries, s, p, Bump(c.counter));
  }

  lemma HitRestEmpty(es: seq<Entry>, s: seq<nat>, p: nat, g: u64)
    requires RestEmpty(es, s) && p < |s| && s[p] < |es| && forall i :: i in s ==> i in MoveFront(s, p)
    ensures RestEmpty(es[s[p] := es[s[p]].(generation := g)], MoveFront(s, p))
  {
    hide MoveFront;
    assert s[p] in s;
  }

  lemma TopMoves(r: seq<Id>, n: nat, p: nat)
    requires Distinct(r) && p < |Top(r, n)|
    ensures Top(Touch(r, Top(r, n)[p]), n) == MoveFront(Top(r, n), p)
  {
    hide Touch;
    var t := Top(r, n);
    assert t[p] in t;
    TopTouchHit(r, t[p], n);
    WithoutAt(t, p);
  }

  lemma HitPlaced(es: seq<Entry>, t: seq<Id>, s: seq<nat>, p: nat, g: u64)
    requires Placed(es, t, s) && p < |s|
    ensures Placed(es[s[p] := es[s[p]].(generation := g)], MoveFront(t, p), MoveFront(s, p))
  {
  }

  lemma HitFalling(es: seq<Entry>, s: seq<nat>, p: nat, counter: u64, g: u64)
    requires Falling(es, s, counter) && Distinct(s) && p < |s| && (g > counter || |s| == 1)
    ensures Falling(es[s[p] := es[s[p]].(generation := g)], MoveFront(s, p), g)
  {
    hide MoveFront;
    var u := MoveFront(s, p);
    assert forall q :: 0 < q < |u| ==> Source(p, q) != p;
  }

  /** Placing `id` in slot `v`, which is outside the order or its last slot. */
  lemma FillKeepsOrder(c: Cache, r: seq<Id>, s: seq<nat>, id: u32, v: nat, data: seq<byte>) returns (u: seq<nat>)
    requires Ordered(c, r, s) && v < |c.entries| && id !in Top(r, |c.entries|)
    requires Newest(c, s != [] && |c.entries| > 1)
    requires |s| < |c.entries| ==> v !in s
    requires |s| == |c.entries| ==> v == s[|s| - 1]
    ensures Ordered(Cache(c.entries[v := Entry(Some(id), Bump(c.counter), data)], Bump(c.counter)), Touch(r, id), u)
  {
    hide Touch, Top, Placed, Falling, RestEmpty, Distinct;
    var n := |c.entries|;
    var kept := if |s| < n then s else s[..|s| - 1];
    u := [v] + kept;
    TouchDistinct(r, id);
    TopTouchMiss(r, id, n);
    PlacedSize(c.entries, Top(r, n), s);
    KeptPlaced(c.entries, r, s, kept);
    KeptFalling(c.entries, s, kept, c.counter);
    FillSlots(c.entries, Top(r, n), s, v, kept, Entry(Some(id), Bump(c.counter), data));
    FillPlaced(c.entries, Top(r, n - 1), kept, Entry(Some(id), Bump(c.counter), data), v);
    FillFalling(c.entries, kept, Entry(Some(id), Bump(c.counter), data), v, c.counter, Bump(c.counter));
  }

  lemma PlacedSize(es: seq<Entry>, t: seq<Id>, s: seq<nat>)
    requires Placed(es, t, s)
    ensures |s| == |t| && forall p :: 0 <= p < |s| ==> s[p] < |es|
  {
  }

  lemma KeptFalling(es: seq<Entry>, s: seq<nat>, kept: seq<nat>, counter: u64)
    requires Falling(es, s, counter) && kept <= s
    ensures Falling(es, kept, counter)
  {
  }

  lemma KeptPlaced(es: seq<Entry>, r: seq<Id>, s: seq<nat>, kept: seq<nat>)
    requires |es| > 0 && Placed(es, Top(r, |es|), s)
    requires kept == if |s| < |es| then s else s[..|s| - 1]
    ensures Placed(es, Top(r, |es| - 1), kept)
  {
    var t, k := Top(r, |es|), Top(r, |es| - 1);
    assert |k| == |kept|;
    assert forall q :: 0 <= q < |kept| ==> kept[q] == s[q] && k[q] == t[q];
  }

  lemma FillSlots(es: seq<Entry>, t: seq<Id>, s: seq<nat>, v: nat, kept: seq<nat>, e: Entry)
    requires v < |es| && Distinct(s) && RestEmpty(es, s) && Placed(es, t, s)
    requires |s| <= |es| && kept == if |s| < |es| then s else s[..|s| - 1]
    requires |s| < |es| ==> v !in s
    requires |s| == |es| ==> v == s[|s| - 1]
    ensures Distinct([v] + kept) && v !in kept
    ensures RestEmpty(es[v := e], [v] + kept)
  {
    hide Distinct;
    KeptSlots(s, |es|, v, kept);
    FrontDistinct(v, kept);
    assert forall i :: i in [v] + kept <==> i == v || i in kept;
  }

  /** Everything in the order is still there, or is `v`. */
  lemma KeptSlots(s: seq<nat>, n: nat, v: nat, kept: seq<nat>)
    requires Distinct(s) && |s| <= n && n > 0 && kept == if |s| < n then s else s[..|s| - 1]
    requires |s| < n ==> v !in s
    requires |s| == n ==> v == s[|s| - 1]
    ensures Distinct(kept) && v !in kept && forall i :: i in s ==> i == v || i in kept
  {
    if |s| == n {
      assert s == kept + [v];
      assert forall q :: 0 <= q < |kept| ==> kept[q] == s[q];
    }
  }

  lemma FillPlaced(es: seq<Entry>, t: seq<Id>, kept: seq<nat>, e: Entry, v: nat)
    requires Placed(es, t, kept) && v < |es| && v !in kept && e.sectorId.Some?
    ensures Placed(es[v := e], [e.sectorId.value] + t, [v] + kept)
  {
    var u, w := [v] + kept, [e.sectorId.value] + t;
    assert forall q :: 0 <= q < |kept| ==> kept[q] in kept;
    assert forall q :: 1 <= q < |u| ==> u[q] == kept[q - 1] && w[q] == t[q - 1];
  }

  lemma FillFalling(es: seq<Entry>, kept: seq<nat>, e: Entry, v: nat, counter: u64, g: u64)
    requires Falling(es, kept, counter) && v < |es| && v !in kept && e.generation == g && (g > counter || kept == [])
    ensures Falling(es[v := e], [v] + kept, g)
  {
    var u := [v] + kept;
    assert forall q :: 0 <= q < |kept| ==> kept[q] in kept;
    assert forall q :: 1 <= q < |u| ==> u[q] == kept[q - 1];
  }

  lemma AbsentIsNotOrdered(c: Cache, r: seq<Id>, s: seq<nat>, id: u32)
    requires Ordered(c, r, s)
    ensures FindFrom(c.entries, id, 0).None? <==> id !in Top(r, |c.entries|)
  {
    var t := Top(r, |c.entries|);
    if FindFrom(c.entries, id, 0).None? {
      forall p | 0 <= p < |t| ensures t[p] != id {
        assert !Holds(c.entries[s[p]], id);
      }
    } else {
      var p := FoundIsOrdered(c, r, s, id);
    }
  }

  // ---- Runs ----

  datatype Op = Get(id: u32) | Load(id: u32) | Clear

  function Step(c: Cache, op: Op, flash: seq<byte>, base: u32): Cache
    requires |c.entries| > 0
  {
    match op
    case Get(id) => Lookup(c, id).0
    case Load(id) => GetOrLoad(c, FlashReader(flash), id, base).0
    case Clear => Cleared(c)
  }

  /** Whether an operation is a use of its sector. */
  predicate Uses(c: Cache, op: Op, flash: seq<byte>, base: u32)
    requires |c.entries| > 0
  {
    match op
    case Get(id) => Lookup(c, id).1.Some?
    case Load(id) => GetOrLoad(c, FlashReader(flash), id, base).1.Ok?
    case Clear => false
  }

  function StepRecent(r: seq<Id>, c: Cache, op: Op, flash: seq<byte>, base: u32): seq<Id>
    requires |c.entries| > 0
  {
    if op.Clear? then [] else if Uses(c, op, flash, base) then Touch(r, op.id) else r
  }

  function Run(c: Cache, ops: seq<Op>, flash: seq<byte>, base: u32): (d: Cache)
    requires |c.entries| > 0
    ensures |d.entries| == |c.entries|
  {
    if ops == [] then c else Step(Run(c, ops[..|ops| - 1], flash, base), ops[|ops| - 1], flash, base)
  }

  /** Distinct sectors used since the last clear, most recent first. */
  function RunRecent(c: Cache, ops: seq<Op>, flash: seq<byte>, base: u32): seq<Id>
    requires |c.entries| > 0
  {
    if ops == [] then []
    else
      var before := ops[..|ops| - 1];
      StepRecent(RunRecent(c, before, flash, base), Run(c, before, flash, base), ops[|ops| - 1], flash, base)
  }

  lemma StepKeepsOrder(c: Cache, r: seq<Id>, s: seq<nat>, op: Op, flash: seq<byte>, base: u32) returns (u: seq<nat>)
    requires |c.entries| > 0 && c.counter + 1 < U64 && Ordered(c, r, s)
    ensures Ordered(Step(c, op, flash, base), StepRecent(r, c, op, flash, base), u)
    ensures Step(c, op, flash, base).counter <= c.counter + 1
  {
    hide Touch, Top, Ordered;
    if op.Clear? {
      u := [];
      ClearedOrdered(c);
    } else if FindFrom(c.entries, op.id, 0).Some? {
      var p := FoundIsOrdered(c, r, s, op.id);
      HitKeepsOrder(c, r, s, p);
      u := MoveFront(s, p);
    } else if op.Get? {
      u := s;
    } else {
      u := LoadKeepsOrder(c, r, s, op.id, flash, base);
    }
  }

  lemma ClearedOrdered(c: Cache)
    ensures Ordered(Cleared(c), [], [])
  {
  }

  lemma LoadKeepsOrder(c: Cache, r: seq<Id>, s: seq<nat>, id: u32, flash: seq<byte>, base: u32) returns (u: seq<nat>)
    requires |c.entries| > 0 && c.counter + 1 < U64 && Ordered(c, r, s) && FindFrom(c.entries, id, 0).None?
    ensures var (d, result) := GetOrLoad(c, FlashReader(flash), id, base);
            Ordered(d, if result.Ok? then Touch(r, id) else r, u) && d.counter <= c.counter + 1
  {
    hide Touch, Top;
    AbsentIsNotOrdered(c, r, s, id);
    VictimIsLeastRecent(c, r, s);
    var v := Victim(c.entries);
    var old_ := c.entries[v];
    var out := FlashRead(flash, SectorOffset(base, id, |old_.data|), old_.data);
    if out.Fault? {
      u := s;
      assert c.entries[v := old_.(data := out.after)] == c.entries;
    } else {
      u := FillKeepsOrder(c, r, s, id, v, out.after);
    }
  }

  lemma StepAgrees(c: Cache, op: Op, flash: seq<byte>, base: u32, size: nat)
    requires |c.entries| > 0 && Agrees(c, flash, base, size)
    ensures Agrees(Step(c, op, flash, base), flash, base, size)
  {
    if op.Load? && FindFrom(c.entries, op.id, 0).None? {
      VictimInRange(c.entries, 0, 0, U64 - 1);
      var old_ := c.entries[Victim(c.entries)];
      var o := SectorOffset(base, op.id, size);
      assert FlashReader(flash)(o, old_.data) == FlashRead(flash, o, old_.data);
    }
  }

  function Fresh(sectors: nat, size: nat): Cache {
    Cache(seq(sectors, _ => Entry(None, 0, Zeros(size))), 0)
  }

  /**
   * After any run of lookups, loads and clears over unchanged flash, the slots hold, in order of use,
   * exactly the most recently used distinct sectors since the last clear, each with flash's own bytes.
   */
  lemma {:induction false} ExactlyLru(sectors: nat, size: nat, ops: seq<Op>, flash: seq<byte>, base: u32)
    returns (s: seq<nat>)
    requires sectors > 0 && |ops| < U64
    ensures var c := Run(Fresh(sectors, size), ops, flash, base);
            && Ordered(c, RunRecent(Fresh(sectors, size), ops, flash, base), s)
            && Agrees(c, flash, base, size) && c.counter <= |ops|
    decreases |ops|
  {
    hide Ordered, Agrees, Step, StepRecent;
    if ops == [] {
      s := FreshOrdered(sectors, size, flash, base);
    } else {
      var before := ops[..|ops| - 1];
      var c := Run(Fresh(sectors, size), before, flash, base);
      var t := ExactlyLru(sectors, size, before, flash, base);
      var r := RunRecent(Fresh(sectors, size), before, flash, base);
      s := StepKeepsOrder(c, r, t, ops[|ops| - 1], flash, base);
      StepAgrees(c, ops[|ops| - 1], flash, base, size);
    }
  }

  lemma FreshOrdered(sectors: nat, size: nat, flash: seq<byte>, base: u32) returns (s: seq<nat>)
    ensures Ordered(Fresh(sectors, size), [], s) && Agrees(Fresh(sectors, size), flash, base, size)
  {
    s := [];
  }

  /** Sectors held by some entry. */
  ghost function Contents(c: Cache): set<Id> {
    set i | 0 <= i < |c.entries| && c.entries[i].sectorId.Some? :: c.entries[i].sectorId.value as Id
  }

  /** The cache's contents, as a set: min(sectors, distinct) most recently used, none twice. */
  lemma ContentsAreMostRecent(sectors: nat, size: nat, ops: seq<Op>, flash: seq<byte>, base: u32)
    requires sectors > 0 && |ops| < U64
    ensures var c, r := Run(Fresh(sectors, size), ops, flash, base), RunRecent(Fresh(sectors, size), ops, flash, base);
            && Contents(c) == Elements(Top(r, sectors))
            && |Contents(c)| == (if |r| < sectors then |r| else sectors)
            && (forall i, j :: 0 <= i < j < sectors && c.entries[i].sectorId.Some? ==>
                  c.entries[i].sectorId != c.entries[j].sectorId)
  {
    var s := ExactlyLru(sectors, size, ops, flash, base);
    var c, r := Run(Fresh(sectors, size), ops, flash, base), RunRecent(Fresh(sectors, size), ops, flash, base);
    OrderedContents(c, r, s);
  }

  lemma OrderedContents(c: Cache, r: seq<Id>, s: seq<nat>)
    requires Ordered(c, r, s)
    ensures Contents(c) == Elements(Top(r, |c.entries|)) && |Contents(c)| == |Top(r, |c.entries|)|
    ensures forall i, j :: 0 <= i < j < |c.entries| && c.entries[i].sectorId.Some? ==>
              c.entries[i].sectorId != c.entries[j].sectorId
  {
    var t := Top(r, |c.entries|);
    DistinctSize(t);
    forall x ensures x in Contents(c) <==> x in Elements(t) {
      if x in Elements(t) {
        var p :| 0 <= p < |t| && t[p] == x;
        assert c.entries[s[p]].sectorId.value == x;
      }
      if x in Contents(c) {
        var i :| 0 <= i < |c.entries| && c.entries[i].sectorId.Some? && c.entries[i].sectorId.value == x;
        assert i in s;
        var p :| 0 <= p < |s| && s[p] == i;
        assert t[p] == x;
      }
    }
    OrderedUnique(c, r, s);
  }

  lemma OrderedUnique(c: Cache, r: seq<Id>, s: seq<nat>)
    requires Ordered(c, r, s)
    ensures forall i, j :: 0 <= i < j < |c.entries| && c.entries[i].sectorId.Some? ==>
              c.entries[i].sectorId != c.entries[j].sectorId
  {
    var t := Top(r, |c.entries|);
    forall i, j | 0 <= i < j < |c.entries| && c.entries[i].sectorId.Some?
      ensures c.entries[i].sectorId != c.entries[j].sectorId
    {
      if c.entries[j].sectorId.Some? {
        assert i in s && j in s;
        var p :| 0 <= p < |s| && s[p] == i;
        var q :| 0 <= q < |s| && s[q] == j;
        assert t[p] != t[q];
      }
    }
  }

  // ---- What callers are answered ----

  lemma NoWrap(base: nat, place: nat)
    requires base + place < 0x1_0000_0000
    ensures WrapAdd(base, place % U32) == base + place
  {
  }

  lemma PlaceOf(base: u32, id: u32, size: nat)
    requires base + id * size < 0x1_0000_0000
    ensures SectorOffset(base, id, size) == base + id * size
  {
    hide WrapAdd;
    NoWrap(base, id * size);
  }

  /** What an entry that agrees with flash holds of a sector whose place, `at`, fits 32 bits. */
  lemma HeldBytes(c: Cache, flash: seq<byte>, base: u32, size: nat, i: nat, at: nat)
    requires Agrees(c, flash, base, size) && i < |c.entries| && c.entries[i].sectorId.Some?
    requires at == base + c.entries[i].sectorId.value * size < 0x1_0000_0000
    ensures at + size <= |flash| && c.entries[i].data == flash[at..at + size]
  {
    hide SectorOffset;
    PlaceOf(base, c.entries[i].sectorId.value, size);
  }

  /** A lookup in any cache that agrees with flash. */
  lemma LookupAnswer(c: Cache, flash: seq<byte>, base: u32, size: nat, id: u32, at: nat)
    requires Agrees(c, flash, base, size) && at == base + id * size < 0x1_0000_0000
    ensures Lookup(c, id).1.Some? <==> id in Contents(c)
    ensures Lookup(c, id).1.Some? ==> at + size <= |flash| && Lookup(c, id).1.value == flash[at..at + size]
  {
    hide Agrees;
    if i :| 0 <= i < |c.entries| && c.entries[i].sectorId.Some? && c.entries[i].sectorId.value == id {
      assert Holds(c.entries[i], id);
    }
    if FindFrom(c.entries, id, 0).Some? {
      HeldBytes(c, flash, base, size, FindFrom(c.entries, id, 0).value, at);
    }
  }

  /** A load into any such cache. */
  lemma LoadAnswer(c: Cache, flash: seq<byte>, base: u32, size: nat, id: u32, at: nat)
    requires |c.entries| > 0 && Agrees(c, flash, base, size) && at == base + id * size < 0x1_0000_0000
    ensures GetOrLoad(c, FlashReader(flash), id, base).1
            == if at + size <= |flash| then Ok(flash[at..at + size]) else Err(VfsStorage)
  {
    hide Agrees, SectorOffset, Victim;
    PlaceOf(base, id, size);
    if FindFrom(c.entries, id, 0).Some? {
      HeldBytes(c, flash, base, size, FindFrom(c.entries, id, 0).value, at);
    } else {
      VictimBelow(c.entries);
      EntrySize(c, flash, base, size, Victim(c.entries));
    }
  }

  lemma VictimBelow(es: seq<Entry>)
    requires |es| > 0
    ensures Victim(es) < |es|
  {
    VictimInRange(es, 0, 0, U64 - 1);
  }

  lemma EntrySize(c: Cache, flash: seq<byte>, base: u32, size: nat, i: nat)
    requires Agrees(c, flash, base, size) && i < |c.entries|
    ensures |c.entries[i].data| == size
  {
  }

  /**
   * After any run, a load of a sector whose place fits 32 bits answers flash's bytes at that place, from
   * the cache or from flash alike, or fails exactly if flash ends before the sector does; a lookup answers
   * the same bytes for exactly the most recently used sectors, and nothing for others.
   */
  lemma AnswersAreFlash(sectors: nat, size: nat, ops: seq<Op>, flash: seq<byte>, base: u32, id: u32, at: nat)
    requires sectors > 0 && |ops| < U64 && at == base + id * size < 0x1_0000_0000
    ensures var c := Run(Fresh(sectors, size), ops, flash, base);
            GetOrLoad(c, FlashReader(flash), id, base).1
            == if at + size <= |flash| then Ok(flash[at..at + size]) else Err(VfsStorage)
    ensures var c, r := Run(Fresh(sectors, size), ops, flash, base), RunRecent(Fresh(sectors, size), ops, flash, base);
            && (Lookup(c, id).1.Some? <==> id in Elements(Top(r, sectors)))
            && (Lookup(c, id).1.Some? ==> at + size <= |flash| && Lookup(c, id).1.value == flash[at..at + size])
  {
    hide GetOrLoad, Lookup, Agrees, Run, RunRecent, Top, Contents;
    var c := Run(Fresh(sectors, size), ops, flash, base);
    var s := ExactlyLru(sectors, size, ops, flash, base);
    ContentsAreMostRecent(sectors, size, ops, flash, base);
    LookupAnswer(c, flash, base, size, id, at);
    LoadAnswer(c, flash, base, size, id, at);
  }

  // ---- Loads against other policies ----

  function Loads(trace: seq<u32>): seq<Op> {
    seq(|trace|, i requires 0 <= i < |trace| => Load(trace[i]))
  }

  function Ids(trace: seq<u32>): seq<Id> {
    seq(|trace|, i requires 0 <= i < |trace| => trace[i] as Id)
  }

  /** Every sector of the trace is inside flash, so every load succeeds. */
  predicate AllReadable(trace: seq<u32>, flash: seq<byte>, base: u32, size: nat) {
    forall i :: 0 <= i < |trace| ==> SectorOffset(base, trace[i], size) + size <= |flash|
  }

  /** Flash reads performed by the cache over a trace of loads. */
  function FlashLoads(c: Cache, trace: seq<u32>, flash: seq<byte>, base: u32): nat
    requires |c.entries| > 0
  {
    if trace == [] then 0
    else
      var n := |trace| - 1;
      var before := Run(c, Loads(trace[..n]), flash, base);
      FlashLoads(c, trace[..n], flash, base) + (if FindFrom(before.entries, trace[n], 0).Some? then 0 else 1)
  }

  /** The cache reads flash exactly where least-recently-used replacement misses. */
  lemma {:induction false} LoadsAreLruMisses(sectors: nat, size: nat, trace: seq<u32>, flash: seq<byte>, base: u32)
    requires sectors > 0 && |trace| < U64 && AllReadable(trace, flash, base, size)
    ensures var c := Fresh(sectors, size);
            && FlashLoads(c, trace, flash, base) == LruMisses(Ids(trace), sectors)
            && RunRecent(c, Loads(trace), flash, base) == Recent(Ids(trace))
    decreases |trace|
  {
    hide Touch, Top, Ordered, Agrees, Step;
    if trace != [] {
      var n, c := |trace| - 1, Fresh(sectors, size);
      var prior := trace[..n];
      LoadsAreLruMisses(sectors, size, prior, flash, base);
      assert Loads(trace)[..n] == Loads(prior) && Ids(trace)[..n] == Ids(prior);
      var d := Run(c, Loads(prior), flash, base);
      var s := ExactlyLru(sectors, size, Loads(prior), flash, base);
      AbsentIsNotOrdered(d, Recent(Ids(prior)), s, trace[n]);
      LoadSucceeds(d, trace[n], flash, base, size);
    }
  }

  lemma LoadSucceeds(c: Cache, id: u32, flash: seq<byte>, base: u32, size: nat)
    requires |c.entries| > 0 && Agrees(c, flash, base, size) && SectorOffset(base, id, size) + size <= |flash|
    ensures GetOrLoad(c, FlashReader(flash), id, base).1.Ok?
  {
    VictimInRange(c.entries, 0, 0, U64 - 1);
    var old_ := c.entries[Victim(c.entries)];
    var o := SectorOffset(base, id, size);
    assert FlashReader(flash)(o, old_.data) == FlashRead(flash, o, old_.data);
  }

  /** On any trace of loads that succeed the cache reads flash at most `sectors` times as often as any policy. */
  lemma CacheIsCompetitive(sectors: nat, size: nat, trace: seq<u32>, flash: seq<byte>, base: u32, c: seq<set<Id>>)
    requires sectors > 0 && |trace| < U64 && AllReadable(trace, flash, base, size) && Policy(Ids(trace), c, sectors)
    ensures FlashLoads(Fresh(sectors, size), trace, flash, base) <= sectors * PolicyMisses(Ids(trace), c)
  {
    LoadsAreLruMisses(sectors, size, trace, flash, base);
    Competitive(Ids(trace), c, sectors);
  }

  /** A larger cache holds everything a smaller one does after the same loads, and never reads flash more often. */
  lemma CacheInclusion(small: nat, large: nat, size: nat, trace: seq<u32>, flash: seq<byte>, base: u32)
    requires 0 < small <= large && |trace| < U64 && AllReadable(trace, flash, base, size)
    ensures Contents(Run(Fresh(small, size), Loads(trace), flash, base))
            <= Contents(Run(Fresh(large, size), Loads(trace), flash, base))
    ensures FlashLoads(Fresh(large, size), trace, flash, base) <= FlashLoads(Fresh(small, size), trace, flash, base)
  {
    hide Run, RunRecent;
    LoadsAreLruMisses(small, size, trace, flash, base);
    LoadsAreLruMisses(large, size, trace, flash, base);
    ContentsAreMostRecent(small, size, Loads(trace), flash, base);
    ContentsAreMostRecent(large, size, Loads(trace), flash, base);
    StackInclusion(Ids(trace), small, large);
  }

  // ---- What the assumptions are for ----

  /** An order of two entries or more has generations above 0. */
  lemma OrderNeedsRoom(c: Cache, r: seq<Id>, s: seq<nat>)
    requires Ordered(c, r, s)
    ensures |Top(r, |c.entries|)| > 1 ==> c.counter > 0
  {
    hide Top;
    if |s| > 1 {
      assert c.entries[s[0]].generation > c.entries[s[1]].generation;
    }
  }

  /** A hit keeps the order exactly if the counter does not wrap or no other entry is held. */
  lemma HitKeepsOrderIff(c: Cache, r: seq<Id>, s: seq<nat>, p: nat)
    requires Ordered(c, r, s) && p < |s|
    ensures Ordered(Hit(c, s[p]), Touch(r, Top(r, |c.entries|)[p]), MoveFront(s, p))
            <==> (c.counter + 1 < U64 || |s| == 1)
  {
    hide Ordered, Touch, Top, MoveFront;
    OrderedSize(c, r, s);
    if c.counter + 1 < U64 || |s| == 1 {
      HitKeepsOrder(c, r, s, p);
    } else {
      TopMovesSize(r, |c.entries|, p);
      if Ordered(Hit(c, s[p]), Touch(r, Top(r, |c.entries|)[p]), MoveFront(s, p)) {
        OrderNeedsRoom(Hit(c, s[p]), Touch(r, Top(r, |c.entries|)[p]), MoveFront(s, p));
      }
    }
  }

  lemma OrderedSize(c: Cache, r: seq<Id>, s: seq<nat>)
    requires Ordered(c, r, s)
    ensures |s| == |Top(r, |c.entries|)| && Distinct(r) && forall p :: 0 <= p < |s| ==> s[p] < |c.entries|
  {
  }

  lemma TopMovesSize(r: seq<Id>, n: nat, p: nat)
    requires Distinct(r) && p < |Top(r, n)|
    ensures |Top(Touch(r, Top(r, n)[p]), n)| == |Top(r, n)|
  {
    hide Touch, Top, MoveFront;
    TopMoves(r, n, p);
  }

  /** At the end of the counter's range the most recently used sector is the one replaced. */
  lemma WrappedCounterBreaksLru()
    ensures var c := Cache([Entry(Some(0), U64 - 2, []), Entry(Some(1), U64 - 1, [])], U64 - 1);
            Ordered(c, [1, 0], [1, 0]) && Victim(Hit(c, 0).entries) == 0
  {
    var c := Cache([Entry(Some(0), U64 - 2, []), Entry(Some(1), U64 - 1, [])], U64 - 1);
    var es := Hit(c, 0).entries;
    assert Top([1, 0], 2) == [1, 0];
    assert 0 in [1, 0] && 1 in [1, 0] by { assert [1, 0][0] == 1 && [1, 0][1] == 0; }
    assert es == [Entry(Some(0), 0, []), Entry(Some(1), U64 - 1, [])];
    assert VictimFrom(es, 0, 0, U64 - 1) == VictimFrom(es, 1, 0, 0) == VictimFrom(es, 2, 0, 0);
  }

  /** A read that fails with `torn` in the buffer keeps agreement exactly if the entry was empty or is as it was. */
  lemma TornReadAgreesIff(c: Cache, r: Reader, id: u32, flash: seq<byte>, base: u32, size: nat, torn: seq<byte>)
    requires |c.entries| > 0 && Agrees(c, flash, base, size) && FindFrom(c.entries, id, 0).None? && |torn| == size
    requires Victim(c.entries) < |c.entries|
    requires r(SectorOffset(base, id, size), c.entries[Victim(c.entries)].data) == Fault(torn)
    ensures var victim := c.entries[Victim(c.entries)];
            Agrees(GetOrLoad(c, r, id, base).0, flash, base, size) <==> victim.sectorId.None? || torn == victim.data
  {
    hide SectorBytes, SectorOffset, Victim, FindFrom;
    var v := Victim(c.entries);
    var was, es := c.entries[v], GetOrLoad(c, r, id, base).0.entries;
    assert es == c.entries[v := was.(data := torn)];
    assert es[v].data == torn && es[v].sectorId == was.sectorId;
  }

  /** A read that fails after touching the buffer leaves a held sector with bytes flash does not have. */
  lemma TornReadBreaksAgreement(flash: seq<byte>)
    requires |flash| == 1 && flash[0] != 7
    ensures var c := Cache([Entry(Some(0), 1, flash)], 1);
            && Agrees(c, flash, 0, 1)
            && !Agrees(GetOrLoad(c, (o: nat, b: seq<byte>) => Fault([7]), 1, 0).0, flash, 0, 1)
  {
    var c := Cache([Entry(Some(0), 1, flash)], 1);
    var es := c.entries;
    assert flash[0..1] == flash;
    assert SectorBytes(flash, 0, 0, 1) == Done(flash);
    var r := (o: nat, b: seq<byte>) => Fault([7]);
    assert FindFrom(es, 1, 0) == FindFrom(es, 1, 1) == None;
    assert VictimFrom(es, 0, 0, U64 - 1) == VictimFrom(es, 1, 0, 1) == 0;
    var d := GetOrLoad(c, r, 1, 0).0;
    assert d.entries[0] == Entry(Some(0), 1, [7]);
    assert [7 as byte][0] != flash[0];
  }
}
