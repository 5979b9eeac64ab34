/** Partition views: address translation, bounds, and isolation on shared storage. */
module Partition {
  import opened Bytes
  import opened Block
  import Storage

  /** What lies under a partition: overwriting blocks, or NOR flash, which ANDs writes and erases to 0xFF. */
  datatype Medium = Blocks | Nor(eraseSize: nat)

  datatype Op = Read(offset: u32, len: u32) | Write(offset: u32, bytes: seq<byte>) | Erase(from: u32, to: u32)

  datatype Failure = OutOfPartition | StorageBounds | StorageAlignment | StorageDevice

  datatype Outcome = Got(bytes: seq<byte>) | Done | Failed(why: Failure)

  // ---- The whole store as a flat array ----

  predicate StoreBounds(m: Medium, end: nat, capacity: nat) {
    if m.Blocks? then end < U32 && end <= capacity % U32 else end <= capacity
  }

  function Written(m: Medium, old_: seq<byte>, bytes: seq<byte>): (r: seq<byte>)
    requires |old_| == |bytes|
    ensures |r| == |bytes|
  {
    if m.Blocks? then bytes else Storage.AndBytes(old_, bytes)
  }

  predicate Aligned(m: Medium, from: nat, to: nat) {
    m.Nor? && m.eraseSize > 0 ==> from % m.eraseSize == 0 && to % m.eraseSize == 0
  }

  function Blanked(m: Medium, old_: seq<byte>): (r: seq<byte>)
    ensures |r| == |old_|
  {
    if m.Blocks? then old_ else Storage.Erased(|old_|)
  }

  function StoreStep(m: Medium, data: seq<byte>, op: Op): (r: (seq<byte>, Outcome))
    ensures |r.0| == |data|
  {
    match op
    case Read(o, n) =>
      if !StoreBounds(m, o + n, |data|) then (data, Failed(StorageBounds)) else (data, Got(data[o..o + n]))
    case Write(o, b) =>
      if !StoreBounds(m, o + |b|, |data|) then (data, Failed(StorageBounds))
      else (Splice(data, o, Written(m, data[o..o + |b|], b)), Done)
    case Erase(from, to) =>
      if from > to || to > |data| then (data, Failed(StorageBounds))
      else if !Aligned(m, from, to) then (data, Failed(StorageAlignment))
      else (Splice(data, from, Blanked(m, data[from..to])), Done)
  }

  // ---- Views ----

  datatype View = View(base: u32, size: u32)

  predicate InView(v: View, op: Op) {
    match op
    case Read(o, n) => o + n < U32 && o + n <= v.size
    case Write(o, b) => o + |b| < U32 && o + |b| <= v.size
    case Erase(from, to) => from <= to <= v.size
  }

  ghost predicate FitsIn(v: View, capacity: nat) {
    v.base + v.size <= capacity < U32
  }

  function Translate(v: View, op: Op): Op
    requires InView(v, op) && v.base + v.size < U32
  {
    match op
    case Read(o, n) => Read(v.base + o, n)
    case Write(o, b) => Write(v.base + o, b)
    case Erase(from, to) => Erase(v.base + from, v.base + to)
  }

  function ViewStep(m: Medium, data: seq<byte>, v: View, op: Op): (r: (seq<byte>, Outcome))
    requires v.base + v.size < U32
    ensures |r.0| == |data|
  {
    if InView(v, op) then StoreStep(m, data, Translate(v, op)) else (data, Failed(OutOfPartition))
  }

  function Slice(data: seq<byte>, v: View): (s: seq<byte>)
    requires v.base + v.size <= |data|
    ensures |s| == v.size
  {
    data[v.base..v.base + v.size]
  }

  /** The partition as an array of its own; `v` only matters for the alignment of NOR erases. */
  function PrivateStep(m: Medium, mine: seq<byte>, v: View, op: Op): (r: (seq<byte>, Outcome))
    requires |mine| == v.size
    ensures |r.0| == |mine|
  {
    if !InView(v, op) then (mine, Failed(OutOfPartition))
    else match op
      case Read(o, n) => (mine, Got(mine[o..o + n]))
      case Write(o, b) => (Splice(mine, o, Written(m, mine[o..o + |b|], b)), Done)
      case Erase(from, to) =>
        if Aligned(m, v.base + from, v.base + to) then (Splice(mine, from, Blanked(m, mine[from..to])), Done)
        else (mine, Failed(StorageAlignment))
  }

  predicate Apart(v: View, w: View) {
    v.base + v.size <= w.base || w.base + w.size <= v.base
  }

  lemma SliceSplice(data: seq<byte>, v: View, at: nat, src: seq<byte>)
    requires v.base + v.size <= |data| && at + |src| <= v.size
    ensures Slice(Splice(data, v.base + at, src), v) == Splice(Slice(data, v), at, src)
  {
    var s, t := Slice(Splice(data, v.base + at, src), v), Splice(Slice(data, v), at, src);
    assert forall i :: 0 <= i < v.size ==> s[i] == t[i];
  }

  lemma MixedInside(data: seq<byte>, after: seq<byte>, at: nat, src: seq<byte>, lo: nat, hi: nat)
    requires Mixed(data, data, after, at, src) && lo <= at && at + |src| <= hi <= |data|
    ensures after[..lo] == data[..lo] && after[hi..] == data[hi..]
  {
  }

  lemma SpliceSame(data: seq<byte>, from: nat, to: nat)
    requires from <= to <= |data|
    ensures Splice(data, from, data[from..to]) == data
  {
  }

  lemma SubSlice(data: seq<byte>, v: View, from: nat, to: nat)
    requires v.base + v.size <= |data| && from <= to <= v.size
    ensures data[v.base + from..v.base + to] == Slice(data, v)[from..to]
  {
    var s, t := data[v.base + from..v.base + to], Slice(data, v)[from..to];
    assert forall i :: 0 <= i < to - from ==> s[i] == t[i];
  }

  lemma StoreReaches(m: Medium, end: nat, capacity: nat)
    requires end <= capacity < U32
    ensures StoreBounds(m, end, capacity)
  {
  }

  /** One operation through a view is the operation on the partition as an array of its own. */
  ghost predicate Private(m: Medium, data: seq<byte>, v: View, op: Op)
    requires FitsIn(v, |data|)
  {
    var (after, out) := ViewStep(m, data, v, op);
    PrivateStep(m, Slice(data, v), v, op) == (Slice(after, v), out)
  }

  lemma ReadPrivate(m: Medium, data: seq<byte>, v: View, o: u32, n: u32)
    requires FitsIn(v, |data|) && InView(v, Read(o, n))
    ensures Private(m, data, v, Read(o, n))
  {
    hide Slice, StoreBounds;
    StoreReaches(m, v.base + o + n, |data|);
    SubSlice(data, v, o, o + n);
  }

  lemma WritePrivate(m: Medium, data: seq<byte>, v: View, o: u32, b: seq<byte>)
    requires FitsIn(v, |data|) && InView(v, Write(o, b))
    ensures Private(m, data, v, Write(o, b))
  {
    hide Splice, Written, Slice, StoreBounds;
    StoreReaches(m, v.base + o + |b|, |data|);
    SubSlice(data, v, o, o + |b|);
    SliceSplice(data, v, o, Written(m, data[v.base + o..v.base + o + |b|], b));
  }

  lemma ErasePrivate(m: Medium, data: seq<byte>, v: View, from: u32, to: u32)
    requires FitsIn(v, |data|) && InView(v, Erase(from, to))
    ensures Private(m, data, v, Erase(from, to))
  {
    hide Splice, Blanked, Aligned, Slice;
    SubSlice(data, v, from, to);
    SliceSplice(data, v, from, Blanked(m, data[v.base + from..v.base + to]));
  }

  /** Through its view a partition is a private array. */
  lemma ViewIsPrivate(m: Medium, data: seq<byte>, v: View, op: Op)
    requires FitsIn(v, |data|)
    ensures Private(m, data, v, op)
  {
    hide Splice, Written, Blanked, Aligned, Slice, StoreBounds, StoreStep;
    if InView(v, op) {
      match op
      case Read(o, n) => ReadPrivate(m, data, v, o, n);
      case Write(o, b) => WritePrivate(m, data, v, o, b);
      case Erase(from, to) => ErasePrivate(m, data, v, from, to);
    }
  }

  /** ... and no other partition notices. */
  lemma ViewLeavesOthers(m: Medium, data: seq<byte>, v: View, op: Op, w: View)
    requires FitsIn(v, |data|) && FitsIn(w, |data|) && Apart(v, w)
    ensures Slice(ViewStep(m, data, v, op).0, w) == Slice(data, w)
  {
    hide Splice, Written, Blanked, Aligned, StoreBounds;
    if InView(v, op) {
      match op
      case Read(o, n) =>
      case Write(o, b) =>
        StoreReaches(m, v.base + o + |b|, |data|);
        SpliceElsewhere(data, v.base + o, Written(m, data[v.base + o..v.base + o + |b|], b), w.base, w.base + w.size);
      case Erase(from, to) =>
        SpliceElsewhere(data, v.base + from, Blanked(m, data[v.base + from..v.base + to]), w.base, w.base + w.size);
    }
  }

  // ---- What is answered ----

  /** Reads through a view: up to its end the partition's bytes, past it a refusal. */
  lemma ReadAnswer(m: Medium, data: seq<byte>, v: View, o: u32, n: u32)
    requires v.base + v.size <= |data| < 0x1_0000_0000
    ensures ViewStep(m, data, v, Read(o, n))
            == (data, if o + n <= v.size then Got(data[v.base + o..v.base + o + n]) else Failed(OutOfPartition))
  {
    hide StoreBounds;
    if o + n <= v.size {
      StoreReaches(m, v.base + o + n, |data|);
    }
  }

  /**
   * Writes: up to the view's end they are done, and put the bytes in their place, over NOR flash by clearing
   * bits, and nothing anywhere else; past it they are refused and change nothing.
   */
  lemma WriteAnswer(m: Medium, data: seq<byte>, v: View, o: u32, b: seq<byte>)
    requires v.base + v.size <= |data| < 0x1_0000_0000
    ensures var (after, out) := ViewStep(m, data, v, Write(o, b));
            && |after| == |data|
            && (out == Done <==> o + |b| <= v.size) && (out == Failed(OutOfPartition) <==> o + |b| > v.size)
            && forall x :: 0 <= x < |data| ==>
                 after[x] == if o + |b| <= v.size && v.base + o <= x < v.base + o + |b|
                             then (if m.Blocks? then b[x - v.base - o] else data[x] & b[x - v.base - o])
                             else data[x]
  {
    hide StoreBounds, Splice, Written;
    if o + |b| <= v.size {
      var at := v.base + o;
      StoreReaches(m, at + |b|, |data|);
      forall x | 0 <= x < |data|
        ensures Splice(data, at, Written(m, data[at..at + |b|], b))[x]
                == if at <= x < at + |b| then (if m.Blocks? then b[x - at] else data[x] & b[x - at]) else data[x]
      {
        SpliceAt(data, at, Written(m, data[at..at + |b|], b), x);
        if at <= x < at + |b| {
          WrittenAt(m, data[at..at + |b|], b, x - at);
        }
      }
    }
  }

  lemma SpliceAt(data: seq<byte>, at: nat, src: seq<byte>, x: nat)
    requires at + |src| <= |data| && x < |data|
    ensures Splice(data, at, src)[x] == if at <= x < at + |src| then src[x - at] else data[x]
  {
  }

  lemma WrittenAt(m: Medium, old_: seq<byte>, bytes: seq<byte>, k: nat)
    requires k < |old_| == |bytes|
    ensures Written(m, old_, bytes)[k] == if m.Blocks? then bytes[k] else old_[k] & bytes[k]
  {
  }

  /**
   * Erases: refused exactly outside the view, and on NOR flash also where an end is no multiple of the erase
   * size; over blocks nothing changes, on NOR flash exactly the range becomes 0xFF.
   */
  lemma EraseAnswer(m: Medium, data: seq<byte>, v: View, from: u32, to: u32)
    requires v.base + v.size <= |data| < 0x1_0000_0000 && (m.Nor? ==> m.eraseSize > 0)
    ensures var (after, out) := ViewStep(m, data, v, Erase(from, to));
            var fits := m.Nor? ==> (v.base + from) % m.eraseSize == 0 && (v.base + to) % m.eraseSize == 0;
            && |after| == |data|
            && (out == Failed(OutOfPartition) <==> from > to || to > v.size)
            && (out == Failed(StorageAlignment) <==> from <= to <= v.size && !fits)
            && (out == Done <==> from <= to <= v.size && fits)
            && forall x :: 0 <= x < |data| ==>
                 after[x] == if out == Done && m.Nor? && v.base + from <= x < v.base + to then 0xFF else data[x]
  {
    hide Splice, Blanked;
    if from <= to <= v.size {
      var lo, hi := v.base + from, v.base + to;
      forall x | 0 <= x < |data|
        ensures Splice(data, lo, Blanked(m, data[lo..hi]))[x] == if m.Nor? && lo <= x < hi then 0xFF else data[x]
      {
        SpliceAt(data, lo, Blanked(m, data[lo..hi]), x);
        if lo <= x < hi {
          BlankedAt(m, data[lo..hi], x - lo);
        }
      }
    }
  }

  lemma BlankedAt(m: Medium, old_: seq<byte>, k: nat)
    requires k < |old_|
    ensures Blanked(m, old_)[k] == if m.Blocks? then old_[k] else 0xFF
  {
  }

  // ---- Runs: operations of any number of partitions, interleaved at will ----

  datatype Call = Call(view: nat, op: Op)

  ghost predicate Layout(vs: seq<View>, capacity: nat) {
    && (forall k :: 0 <= k < |vs| ==> FitsIn(vs[k], capacity))
    && (forall j, k :: 0 <= j < |vs| && 0 <= k < |vs| && j != k ==> Apart(vs[j], vs[k]))
  }

  ghost predicate Calls(vs: seq<View>, calls: seq<Call>) {
    forall i :: 0 <= i < |calls| ==> calls[i].view < |vs|
  }

  /** The shared store after a run, and every outcome in order. */
  ghost function SharedRun(m: Medium, data: seq<byte>, vs: seq<View>, calls: seq<Call>): (r: (seq<byte>, seq<Outcome>))
    requires Layout(vs, |data|) && Calls(vs, calls)
    ensures |r.0| == |data| && |r.1| == |calls|
  {
    if calls == [] then (data, [])
    else
      var n := |calls| - 1;
      var (before, outs) := SharedRun(m, data, vs, calls[..n]);
      var (after, out) := ViewStep(m, before, vs[calls[n].view], calls[n].op);
      (after, outs + [out])
  }

  /** Partition `k` alone: its own operations on its own array, and their outcomes. */
  ghost function PrivateRun(m: Medium, mine: seq<byte>, v: View, k: nat, calls: seq<Call>)
    : (r: (seq<byte>, seq<Outcome>))
    requires |mine| == v.size
    ensures |r.0| == |mine|
  {
    if calls == [] then (mine, [])
    else
      var n := |calls| - 1;
      var (before, outs) := PrivateRun(m, mine, v, k, calls[..n]);
      if calls[n].view == k then
        var (after, out) := PrivateStep(m, before, v, calls[n].op);
        (after, outs + [out])
      else (before, outs)
  }

  /** The outcomes that belong to partition `k`. */
  ghost function OutcomesOf(k: nat, calls: seq<Call>, outs: seq<Outcome>): seq<Outcome>
    requires |outs| == |calls|
  {
    if calls == [] then []
    else
      var n := |calls| - 1;
      OutcomesOf(k, calls[..n], outs[..n]) + (if calls[n].view == k then [outs[n]] else [])
  }

  /** However operations interleave, each partition behaves as a private array. */
  lemma {:induction false} Isolation(m: Medium, data: seq<byte>, vs: seq<View>, calls: seq<Call>, k: nat)
    requires Layout(vs, |data|) && Calls(vs, calls) && k < |vs|
    ensures var (after, outs) := SharedRun(m, data, vs, calls);
            PrivateRun(m, Slice(data, vs[k]), vs[k], k, calls) == (Slice(after, vs[k]), OutcomesOf(k, calls, outs))
    decreases |calls|
  {
    hide ViewStep, PrivateStep, Slice;
    if calls != [] {
      var n := |calls| - 1;
      var c := calls[n];
      Isolation(m, data, vs, calls[..n], k);
      var (before, prior) := SharedRun(m, data, vs, calls[..n]);
      var (after, outs) := SharedRun(m, data, vs, calls);
      assert outs[..n] == prior;
      if c.view == k {
        ViewIsPrivate(m, before, vs[k], c.op);
      } else {
        ViewLeavesOthers(m, before, vs[c.view], c.op, vs[k]);
        var mine := OutcomesOf(k, calls[..n], prior);
        assert mine + [] == mine;
      }
    }
  }

  // ---- The view class over the shared block adapter ----

  class PartitionView {
    const storage: BlockDeviceAdapter
    const base: u32
    const size: u32

    /** A partition whose end is not a u32 cannot be made. */
    constructor (storage: BlockDeviceAdapter, base: u32, size: u32)
      requires base + size < U32
      ensures this.storage == storage && this.base == base && this.size == size
    {
      this.storage := storage;
      this.base := base;
      this.size := size;
    }

    ghost function AsView(): View {
      View(base, size)
    }

    method ReadAt(offset: u32, bytes: array<byte>) returns (out: Outcome)
      requires base + size < U32 && storage.Sane() && bytes.Length < U32
      requires bytes != storage.cache && bytes != storage.device.data
      modifies storage, storage.device`faults, storage.cache, bytes
      ensures storage.Sane() && (old(storage.Coherent()) ==> storage.Coherent())
      ensures old(storage.device.faults) == [] ==> storage.device.faults == []
      ensures old(storage.Coherent()) && old(storage.device.faults) == [] ==>
                (storage.device.data[..], out)
                == ViewStep(Blocks, storage.device.data[..], AsView(), Read(offset, bytes.Length))
      ensures out.Got? ==> out.bytes == bytes[..]
      ensures out == Failed(OutOfPartition) <==> offset + bytes.Length > size
      // Whatever has failed before.
      ensures storage.Belief() == old(storage.Belief()) || storage.Belief() == storage.device.data[..]
      ensures out.Got? ==> offset + |out.bytes| <= size
                           && Either(out.bytes, storage.device.data[..], old(storage.Belief()), base + offset)
    {
      hide Splice;
      var end := offset + bytes.Length;
      if end >= U32 || end > size {
        return Failed(OutOfPartition);
      }
      var r := storage.Read(base + offset, bytes);
      return match r
        case BlockOk => Got(bytes[..])
        case DeviceError => Failed(StorageDevice)
        case OutOfBounds => Failed(StorageBounds);
    }

    method WriteAt(offset: u32, bytes: seq<byte>) returns (out: Outcome)
      requires base + size < U32 && storage.Sane() && |bytes| < U32
      modifies storage, storage.device`faults, storage.device.data, storage.cache
      ensures storage.Sane()
      ensures old(storage.device.faults) == [] ==> storage.device.faults == []
      ensures old(storage.Coherent()) && old(storage.device.faults) == [] ==>
                storage.Coherent()
                && (storage.device.data[..], out)
                   == ViewStep(Blocks, old(storage.device.data[..]), AsView(), Write(offset, bytes))
      ensures !out.Got? && (out == Failed(OutOfPartition) <==> offset + |bytes| > size)
      // Even a write the device fails part-way stays inside the partition.
      ensures old(storage.Coherent()) && storage.device.data.Length >= base + size ==>
                storage.device.data[..base] == old(storage.device.data[..base])
                && storage.device.data[base + size..] == old(storage.device.data[base + size..])
      // Whatever has failed before.
      ensures var mine := if InView(AsView(), Write(offset, bytes)) then bytes else [];
              && Mixed(old(storage.device.data[..]), old(storage.Belief()), storage.device.data[..],
                       base + offset, mine)
              && Mixed(old(storage.device.data[..]), old(storage.Belief()), storage.Belief(), base + offset, mine)
    {
      hide Splice, Mixed, storage.Belief, storage.Coherent;
      var end := offset + |bytes|;
      if end >= U32 || end > size {
        MixedStart(storage.device.data[..], storage.Belief(), base + offset, []);
        return Failed(OutOfPartition);
      }
      ghost var was, view := storage.device.data[..], storage.Belief();
      storage.CoherentIff();
      var r, done, count := storage.Write(base + offset, bytes);
      if was == view && base + size <= |was| {
        MixedInside(was, storage.device.data[..], base + offset, bytes, base, base + size);
      }
      return match r
        case BlockOk => Done
        case DeviceError => Failed(StorageDevice)
        case OutOfBounds => Failed(StorageBounds);
    }

    method EraseAt(from: u32, to: u32) returns (out: Outcome)
      requires base + size < U32 && storage.Sane()
      ensures (storage.device.data[..], out) == ViewStep(Blocks, storage.device.data[..], AsView(), Erase(from, to))
      ensures !out.Got? && (out == Failed(OutOfPartition) <==> from > to || to > size)
    {
      if from > to || to > size {
        return Failed(OutOfPartition);
      }
      if base + to <= storage.device.data.Length {
        SpliceSame(storage.device.data[..], base + from, base + to);
      }
      var r := storage.Erase(base + from, base + to);
      return if r.BlockOk? then Done else Failed(StorageBounds);
    }

    /** One operation, as a task holding the bus performs it. */
    method Perform(op: Op) returns (out: Outcome)
      requires base + size < U32 && storage.Sane()
      requires op.Write? ==> |op.bytes| < U32
      modifies storage, storage.device`faults, storage.device.data, storage.cache
      ensures storage.Sane() && (old(storage.device.faults) == [] ==> storage.device.faults == [])
      ensures old(storage.Coherent()) && old(storage.device.faults) == [] ==>
                storage.Coherent()
                && (storage.device.data[..], out) == ViewStep(Blocks, old(storage.device.data[..]), AsView(), op)
      // Whatever has failed before.
      ensures var mine := if op.Write? && InView(AsView(), op) then op.bytes else [];
              var at := if op.Write? then base + op.offset else 0;
              && Mixed(old(storage.device.data[..]), old(storage.Belief()), storage.device.data[..], at, mine)
              && Mixed(old(storage.device.data[..]), old(storage.Belief()), storage.Belief(), at, mine)
      ensures out.Got? ==> op.Read? && op.offset + |out.bytes| <= size
                           && Either(out.bytes, old(storage.device.data[..]), old(storage.Belief()), base + op.offset)
    {
      hide Splice, Mixed, Either, storage.Belief, storage.Coherent, ViewStep;
      ghost var data, view := storage.device.data[..], storage.Belief();
      MixedStart(data, view, 0, []);
      match op
      case Read(offset, len) =>
        var bytes := new byte[len](_ => 0);
        out := ReadAt(offset, bytes);
      case Write(offset, bytes) =>
        out := WriteAt(offset, bytes);
      case Erase(from, to) =>
        out := EraseAt(from, to);
    }
  }

  /**
   * Any interleaving of whole operations by views that share one adapter, as the bus lock allows:
   * the device and every outcome are those of the shared run, so `Isolation` applies.
   */
  method RunShared(adapter: BlockDeviceAdapter, views: seq<PartitionView>, calls: seq<Call>)
    returns (outs: seq<Outcome>)
    requires adapter.Valid() && adapter.device.faults == []
    requires forall k :: 0 <= k < |views| ==> views[k].storage == adapter
    requires Layout(ViewsOf(views), adapter.device.data.Length) && Calls(ViewsOf(views), calls)
    requires forall i :: 0 <= i < |calls| && calls[i].op.Write? ==> |calls[i].op.bytes| < U32
    modifies adapter, adapter.device`faults, adapter.device.data, adapter.cache
    ensures adapter.Valid()
    ensures (adapter.device.data[..], outs) == SharedRun(Blocks, old(adapter.device.data[..]), ViewsOf(views), calls)
    ensures forall k :: 0 <= k < |views| ==>
              PrivateRun(Blocks, Slice(old(adapter.device.data[..]), ViewsOf(views)[k]), ViewsOf(views)[k], k, calls)
              == (Slice(adapter.device.data[..], ViewsOf(views)[k]), OutcomesOf(k, calls, outs))
  {
    hide ViewStep, PrivateStep, Slice;
    outs := [];
    ghost var was, vs := adapter.device.data[..], ViewsOf(views);
    for i := 0 to |calls|
      invariant adapter.Valid() && adapter.device.faults == []
      invariant (adapter.device.data[..], outs) == SharedRun(Blocks, was, vs, calls[..i])
    {
      var view := views[calls[i].view];
      assert vs[calls[i].view] == view.AsView() && FitsIn(vs[calls[i].view], |was|);
      assert calls[..i + 1][..i] == calls[..i];
      var out := view.Perform(calls[i].op);
      outs := outs + [out];
    }
    assert calls[..|calls|] == calls;
    forall k | 0 <= k < |views|
      ensures PrivateRun(Blocks, Slice(was, vs[k]), vs[k], k, calls)
              == (Slice(adapter.device.data[..], vs[k]), OutcomesOf(k, calls, outs))
    {
      Isolation(Blocks, was, vs, calls, k);
    }
  }

  ghost function ViewsOf(views: seq<PartitionView>): seq<View> {
    seq(|views|, k requires 0 <= k < |views| => views[k].AsView())
  }

  // ---- Isolation when the device fails ----

  /** `value` is what partition `k` held at position `x` at first, or what one of its own writes carried there. */
  ghost predicate Own(init: seq<byte>, v: View, k: nat, calls: seq<Call>, x: nat, value: byte) {
    || (x < |init| && value == init[x])
    || exists i :: 0 <= i < |calls| && Carries(v, k, calls[i], x, value)
  }

  predicate Carries(v: View, k: nat, c: Call, x: nat, value: byte) {
    && c.view == k && c.op.Write? && InView(v, c.op)
    && v.base + c.op.offset <= x < v.base + c.op.offset + |c.op.bytes|
    && c.op.bytes[x - v.base - c.op.offset] == value
  }

  /** Every byte of every partition is its own. */
  ghost predicate AllOwn(init: seq<byte>, vs: seq<View>, calls: seq<Call>, data: seq<byte>) {
    |data| == |init| && forall k, x :: 0 <= k < |vs| && vs[k].base <= x < vs[k].base + vs[k].size && x < |data| ==>
      Own(init, vs[k], k, calls, x, data[x])
  }

  /** Every byte a call read was the reading partition's own at that time. */
  ghost predicate OwnOutcome(init: seq<byte>, vs: seq<View>, calls: seq<Call>, c: Call, out: Outcome) {
    c.view < |vs| && (out.Got? ==>
      && c.op.Read?
      && forall x :: 0 <= x < |out.bytes| ==>
           Own(init, vs[c.view], c.view, calls, vs[c.view].base + c.op.offset + x, out.bytes[x]))
  }

  lemma OwnLater(init: seq<byte>, v: View, k: nat, calls: seq<Call>, n: nat, x: nat, value: byte)
    requires n <= |calls| && Own(init, v, k, calls[..n], x, value)
    ensures Own(init, v, k, calls, x, value)
  {
    if !(x < |init| && value == init[x]) {
      var i :| 0 <= i < n && Carries(v, k, calls[..n][i], x, value);
      CarriedIsOwn(init, v, k, calls, i, x, value);
    }
  }

  /** One call, whatever the device fails: what it mixes into the store is its own partition's. */
  lemma MixedOwn(init: seq<byte>, vs: seq<View>, calls: seq<Call>, d: seq<byte>, b: seq<byte>, r: seq<byte>)
    requires calls != [] && Layout(vs, |init|) && Calls(vs, calls)
    requires var n := |calls| - 1; AllOwn(init, vs, calls[..n], d) && AllOwn(init, vs, calls[..n], b)
    requires var c := calls[|calls| - 1];
             var v := vs[c.view];
             Mixed(d, b, r, if c.op.Write? then v.base + c.op.offset else 0,
                   if c.op.Write? && InView(v, c.op) then c.op.bytes else [])
    ensures AllOwn(init, vs, calls, r)
  {
    hide Own;
    var n := |calls| - 1;
    forall k, x | 0 <= k < |vs| && vs[k].base <= x < vs[k].base + vs[k].size && x < |r|
      ensures Own(init, vs[k], k, calls, x, r[x])
    {
      var w := vs[calls[n].view];
      assert FitsIn(w, |init|) && (calls[n].view != k ==> Apart(w, vs[k]));
      if r[x] == d[x] {
        OwnLater(init, vs[k], k, calls, n, x, d[x]);
      } else if r[x] == b[x] {
        OwnLater(init, vs[k], k, calls, n, x, b[x]);
      } else {
        CarriedIsOwn(init, vs[k], k, calls, n, x, r[x]);
      }
    }
  }

  lemma CarriedIsOwn(init: seq<byte>, v: View, k: nat, calls: seq<Call>, i: nat, x: nat, value: byte)
    requires i < |calls| && Carries(v, k, calls[i], x, value)
    ensures Own(init, v, k, calls, x, value)
  {
  }

  lemma EitherOwn(init: seq<byte>, vs: seq<View>, calls: seq<Call>, c: Call, out: Outcome, d: seq<byte>, b: seq<byte>)
    requires Layout(vs, |init|) && c.view < |vs| && AllOwn(init, vs, calls, d) && AllOwn(init, vs, calls, b)
    requires out.Got? ==> c.op.Read? && c.op.offset + |out.bytes| <= vs[c.view].size
                          && Either(out.bytes, d, b, vs[c.view].base + c.op.offset)
    ensures OwnOutcome(init, vs, calls, c, out)
  {
    hide Own;
  }

  /**
   * Any interleaving over one adapter whose device fails as it will, partial writes and a cache ahead of
   * the device included: no byte of one partition ever appears in another, on the device or in what is
   * read. Every byte of a partition is its first one or one that a write of the partition itself, failed
   * or not, carried to that place.
   */
  method RunFaulty(adapter: BlockDeviceAdapter, views: seq<PartitionView>, calls: seq<Call>)
    returns (outs: seq<Outcome>)
    requires adapter.Valid() && forall k :: 0 <= k < |views| ==> views[k].storage == adapter
    requires Layout(ViewsOf(views), adapter.device.data.Length) && Calls(ViewsOf(views), calls)
    requires forall i :: 0 <= i < |calls| && calls[i].op.Write? ==> |calls[i].op.bytes| < U32
    modifies adapter, adapter.device`faults, adapter.device.data, adapter.cache
    ensures AllOwn(old(adapter.device.data[..]), ViewsOf(views), calls, adapter.device.data[..])
    ensures |outs| == |calls|
            && forall i :: 0 <= i < |calls| ==>
                 OwnOutcome(old(adapter.device.data[..]), ViewsOf(views), calls[..i], calls[i], outs[i])
  {
    hide Own, adapter.Belief, adapter.Coherent, Mixed, Either, ViewStep, OwnOutcome, AllOwn;
    outs := [];
    ghost var was, vs := adapter.device.data[..], ViewsOf(views);
    adapter.ValidIsSane();
    StartsOwn(was, vs);
    for i := 0 to |calls|
      invariant adapter.Sane() && |outs| == i
      invariant AllOwn(was, vs, calls[..i], adapter.device.data[..]) && AllOwn(was, vs, calls[..i], adapter.Belief())
      invariant forall j :: 0 <= j < i ==> OwnOutcome(was, vs, calls[..j], calls[j], outs[j])
    {
      var view := views[calls[i].view];
      assert vs[calls[i].view] == view.AsView() && FitsIn(vs[calls[i].view], |was|);
      ghost var d, b := adapter.device.data[..], adapter.Belief();
      var out := view.Perform(calls[i].op);
      EitherOwn(was, vs, calls[..i], calls[i], out, d, b);
      assert calls[..i + 1][..i] == calls[..i];
      MixedOwn(was, vs, calls[..i + 1], d, b, adapter.device.data[..]);
      MixedOwn(was, vs, calls[..i + 1], d, b, adapter.Belief());
      outs := outs + [out];
    }
    assert calls[..|calls|] == calls;
  }

  lemma StartsOwn(init: seq<byte>, vs: seq<View>)
    ensures AllOwn(init, vs, [], init)
  {
  }

  // ---- Views over simulated NOR flash ----

  /** NOR flash does what its medium says: bounds, alignment, programming by AND, erasing to 0xFF. */
  method PerformNor(flash: Storage.MockFlash, op: Op) returns (out: Outcome)
    requires flash.eraseSize > 0
    modifies flash.data
    ensures (flash.data[..], out) == StoreStep(Nor(flash.eraseSize), old(flash.data[..]), op)
  {
    match op
    case Read(offset, len) =>
      var bytes := new byte[len](_ => 0);
      var r := flash.Read(offset, bytes);
      out := if r.FlashOk? then Got(bytes[..]) else Failed(StorageBounds);
    case Write(offset, bytes) =>
      var r := flash.Write(offset, bytes);
      out := if r.FlashOk? then Done else Failed(StorageBounds);
    case Erase(from, to) =>
      var r := flash.Erase(from, to);
      out := match r
        case FlashOk => Done
        case FlashErr(OutOfBounds) => Failed(StorageBounds)
        case FlashErr(NotAligned) => Failed(StorageAlignment);
  }

  class NorPartitionView {
    const storage: Storage.MockFlash
    const base: u32
    const size: u32

    /** A partition whose end is not a u32 cannot be made. */
    constructor (storage: Storage.MockFlash, base: u32, size: u32)
      requires base + size < U32
      ensures this.storage == storage && this.base == base && this.size == size
    {
      this.storage := storage;
      this.base := base;
      this.size := size;
    }

    ghost function AsView(): View {
      View(base, size)
    }

    method Perform(op: Op) returns (out: Outcome)
      requires base + size < U32 && storage.eraseSize > 0
      modifies storage.data
      ensures (storage.data[..], out) == ViewStep(Nor(storage.eraseSize), old(storage.data[..]), AsView(), op)
    {
      hide StoreStep;
      match op {
        case Read(offset, len) =>
          if offset + len >= U32 || offset + len > size {
            return Failed(OutOfPartition);
          }
          out := PerformNor(storage, Read(base + offset, len));
        case Write(offset, bytes) =>
          if offset + |bytes| >= U32 || offset + |bytes| > size {
            return Failed(OutOfPartition);
          }
          out := PerformNor(storage, Write(base + offset, bytes));
        case Erase(from, to) =>
          if from > to || to > size {
            return Failed(OutOfPartition);
          }
          out := PerformNor(storage, Erase(base + from, base + to));
      }
    }
  }

  ghost function NorViewsOf(views: seq<NorPartitionView>): seq<View> {
    seq(|views|, k requires 0 <= k < |views| => views[k].AsView())
  }

  /** The same isolation for views that share one NOR flash. */
  method RunSharedNor(flash: Storage.MockFlash, views: seq<NorPartitionView>, calls: seq<Call>)
    returns (outs: seq<Outcome>)
    requires flash.eraseSize > 0 && forall k :: 0 <= k < |views| ==> views[k].storage == flash
    requires Layout(NorViewsOf(views), flash.data.Length) && Calls(NorViewsOf(views), calls)
    modifies flash.data
    ensures (flash.data[..], outs) == SharedRun(Nor(flash.eraseSize), old(flash.data[..]), NorViewsOf(views), calls)
    ensures forall k :: 0 <= k < |views| ==>
              PrivateRun(Nor(flash.eraseSize), Slice(old(flash.data[..]), NorViewsOf(views)[k]),
                         NorViewsOf(views)[k], k, calls)
              == (Slice(flash.data[..], NorViewsOf(views)[k]), OutcomesOf(k, calls, outs))
  {
    hide ViewStep, PrivateStep, Slice;
    outs := [];
    ghost var was, vs, m := flash.data[..], NorViewsOf(views), Nor(flash.eraseSize);
    for i := 0 to |calls|
      invariant (flash.data[..], outs) == SharedRun(m, was, vs, calls[..i])
    {
      var view := views[calls[i].view];
      assert vs[calls[i].view] == view.AsView() && FitsIn(vs[calls[i].view], |was|);
      assert calls[..i + 1][..i] == calls[..i];
      var out := view.Perform(calls[i].op);
      outs := outs + [out];
    }
    assert calls[..|calls|] == calls;
    forall k | 0 <= k < |views|
      ensures PrivateRun(m, Slice(was, vs[k]), vs[k], k, calls)
              == (Slice(flash.data[..], vs[k]), OutcomesOf(k, calls, outs))
    {
      Isolation(m, was, vs, calls, k);
    }
  }
}
