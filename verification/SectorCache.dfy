/** The LRU sector cache: its replacement code, and what any run of it holds. */
module SectorCache {
  import opened Bytes
  import opened Header
  import opened Storage

  datatype Entry = Entry(sectorId: Option<u32>, generation: u64, data: seq<byte>)

  datatype Cache = Cache(entries: seq<Entry>, counter: u64)

  predicate Holds(e: Entry, id: u32) {
    e.sectorId == Some(id)
  }

  /** First entry at or after `i` holding `id`. */
  function FindFrom(es: seq<Entry>, id: u32, i: nat): (r: Option<nat>)
    requires i <= |es|
    ensures r.Some? ==> i <= r.value < |es| && Holds(es[r.value], id)
    ensures r.Some? ==> forall j :: i <= j < r.value ==> !Holds(es[j], id)
    ensures r.None? ==> forall j :: i <= j < |es| ==> !Holds(es[j], id)
    decreases |es| - i
  {
    if i == |es| then None
    else if Holds(es[i], id) then Some(i)
    else FindFrom(es, id, i + 1)
  }

  /** The replacement loop from entry `i` on, with the best entry so far. */
  function VictimFrom(es: seq<Entry>, i: nat, target: nat, minGen: u64): nat
    requires i <= |es|
    decreases |es| - i
  {
    if i == |es| then target
    else if es[i].sectorId.None? then i
    else if es[i].generation < minGen then VictimFrom(es, i + 1, i, es[i].generation)
    else VictimFrom(es, i + 1, target, minGen)
  }

  function Victim(es: seq<Entry>): nat {
    VictimFrom(es, 0, 0, U64 - 1)
  }

  function SectorOffset(base: u32, id: u32, size: nat): u32 {
    WrapAdd(base, id * size % U32)
  }

  /** An access that finds its sector in entry `i`. */
  function Hit(c: Cache, i: nat): (d: Cache)
    requires i < |c.entries|
    ensures |d.entries| == |c.entries|
  {
    var g := Bump(c.counter);
    Cache(c.entries[i := c.entries[i].(generation := g)], g)
  }

  function Lookup(c: Cache, id: u32): (Cache, Option<seq<byte>>) {
    match FindFrom(c.entries, id, 0)
    case Some(i) => (Hit(c, i), Some(c.entries[i].data))
    case None => (c, None)
  }

  /** A load into entry `t`. */
  function Fill(c: Cache, r: Reader, id: u32, base: u32, t: nat): (Cache, Result<seq<byte>, VfsError>)
    requires t < |c.entries|
  {
    var old_ := c.entries[t];
    var out := r(SectorOffset(base, id, |old_.data|), old_.data);
    if out.Fault? then (Cache(c.entries[t := old_.(data := out.after)], c.counter), Err(VfsStorage))
    else
      var g := Bump(c.counter);
      (Cache(c.entries[t := Entry(Some(id), g, out.after)], g), Ok(out.after))
  }

  function GetOrLoad(c: Cache, r: Reader, id: u32, base: u32): (d: (Cache, Result<seq<byte>, VfsError>))
    requires |c.entries| > 0
    ensures |d.0.entries| == |c.entries|
  {
    VictimInRange(c.entries, 0, 0, U64 - 1);
    match FindFrom(c.entries, id, 0)
    case Some(i) => (Hit(c, i), Ok(c.entries[i].data))
    case None => Fill(c, r, id, base, Victim(c.entries))
  }

  function Cleared(c: Cache): Cache {
    Cache(seq(|c.entries|, i requires 0 <= i < |c.entries| => Entry(None, 0, c.entries[i].data)), c.counter)
  }

  lemma {:induction false} VictimInRange(es: seq<Entry>, i: nat, target: nat, minGen: u64)
    requires i <= |es| && target < |es|
    ensures VictimFrom(es, i, target, minGen) < |es|
    decreases |es| - i
  {
    if i < |es| {
      if es[i].generation < minGen {
        VictimInRange(es, i + 1, i, es[i].generation);
      } else {
        VictimInRange(es, i + 1, target, minGen);
      }
    }
  }

  class LruSectorCache {
    const entries: array<Entry>
    var lruCounter: u64

    ghost function View(): Cache
      reads this, entries
    {
      Cache(entries[..], lruCounter)
    }

    constructor (sectors: nat, sectorSize: nat)
      ensures fresh(entries) && entries.Length == sectors && lruCounter == 0
      ensures forall i :: 0 <= i < sectors ==> entries[i] == Entry(None, 0, Zeros(sectorSize))
    {
      entries := new Entry[sectors](_ => Entry(None, 0, Zeros(sectorSize)));
      lruCounter := 0;
    }

    method Get(sectorId: u32) returns (data: Option<seq<byte>>)
      modifies this, entries
      ensures (View(), data) == Lookup(old(View()), sectorId)
    {
      ghost var was := entries[..];
      for i := 0 to entries.Length
        invariant View() == old(View())
        invariant FindFrom(was, sectorId, i) == FindFrom(was, sectorId, 0)
      {
        if entries[i].sectorId == Some(sectorId) {
          lruCounter := Bump(lruCounter);
          entries[i] := entries[i].(generation := lruCounter);
          assert entries[..] == was[i := was[i].(generation := lruCounter)];
          return Some(entries[i].data);
        }
      }
      return None;
    }

    method Load(storage: Reader, sectorId: u32, flashBaseAddr: u32) returns (r: Result<seq<byte>, VfsError>)
      requires entries.Length > 0
      modifies this, entries
      ensures (View(), r) == GetOrLoad(old(View()), storage, sectorId, flashBaseAddr)
    {
      ghost var was := entries[..];
      for i := 0 to entries.Length
        invariant View() == old(View())
        invariant FindFrom(was, sectorId, i) == FindFrom(was, sectorId, 0)
      {
        if entries[i].sectorId == Some(sectorId) {
          lruCounter := Bump(lruCounter);
          entries[i] := entries[i].(generation := lruCounter);
          assert entries[..] == was[i := was[i].(generation := lruCounter)];
          return Ok(entries[i].data);
        }
      }
      var target := ChooseVictim();
      var old_ := entries[target];
      var out := storage(SectorOffset(flashBaseAddr, sectorId, |old_.data|), old_.data);
      if out.Fault? {
        entries[target] := old_.(data := out.after);
        assert entries[..] == was[target := old_.(data := out.after)];
        return Err(VfsStorage);
      }
      lruCounter := Bump(lruCounter);
      entries[target] := Entry(Some(sectorId), lruCounter, out.after);
      assert entries[..] == was[target := Entry(Some(sectorId), lruCounter, out.after)];
      return Ok(entries[target].data);
    }

    method ChooseVictim() returns (target: nat)
      requires entries.Length > 0
      ensures target == Victim(entries[..]) && target < entries.Length
    {
      target := 0;
      var minGen: u64 := U64 - 1;
      var i := 0;
      while i < entries.Length
        invariant 0 <= i <= entries.Length && target < entries.Length
        invariant VictimFrom(entries[..], i, target, minGen) == Victim(entries[..])
      {
        if entries[i].sectorId.None? {
          return i;
        }
        if entries[i].generation < minGen {
          minGen := entries[i].generation;
          target := i;
        }
        i := i + 1;
      }
    }

    method Clear()
      modifies this, entries
      ensures View() == Cleared(old(View())) && lruCounter == old(lruCounter)
      ensures forall i :: 0 <= i < entries.Length ==> entries[i] == Entry(None, 0, old(entries[i].data))
    {
      ghost var was := entries[..];
      for i := 0 to entries.Length
        invariant lruCounter == old(lruCounter)
        invariant forall j :: 0 <= j < i ==> entries[j] == Entry(None, 0, was[j].data)
        invariant entries[i..] == was[i..]
      {
        entries[i] := Entry(None, 0, entries[i].data);
      }
      assert entries[..] == Cleared(old(View())).entries;
    }
  }
}
