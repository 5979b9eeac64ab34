/** The overlay engine: module registry, discovery of modules in storage, calls and prefetches. */
module Engine {
  import opened Bytes
  import opened Header
  import opened Storage
  import opened Overlay

  datatype Registration = Registration(moduleId: u32, flashOffset: u32)

  type Registry = seq<Option<Registration>>

  // ---- The registry ----

  function EmptyRegistry(max: nat): Registry {
    seq(max, _ => None)
  }

  predicate Takes(r: Option<Registration>, id: u32) {
    r.None? || r.value.moduleId == id
  }

  /** First entry at or after `i` that is free or already `id`'s. */
  function PlaceFrom(reg: Registry, id: u32, i: nat): (r: Option<nat>)
    requires i <= |reg|
    ensures r.Some? ==> i <= r.value < |reg| && Takes(reg[r.value], id)
    ensures r.Some? ==> forall j :: i <= j < r.value ==> !Takes(reg[j], id)
    ensures r.None? ==> forall j :: i <= j < |reg| ==> !Takes(reg[j], id)
    decreases |reg| - i
  {
    if i == |reg| then None else if Takes(reg[i], id) then Some(i) else PlaceFrom(reg, id, i + 1)
  }

  function Register(reg: Registry, id: u32, offset: u32): (r: (Registry, Result<(), OverlayError>))
    ensures |r.0| == |reg|
  {
    match PlaceFrom(reg, id, 0)
    case Some(i) => (reg[i := Some(Registration(id, offset))], Ok(()))
    case None => (reg, Err(OverlayError.Storage))
  }

  function OffsetFrom(reg: Registry, id: u32, i: nat): Option<u32>
    requires i <= |reg|
    decreases |reg| - i
  {
    if i == |reg| then None
    else if reg[i].Some? && reg[i].value.moduleId == id then Some(reg[i].value.flashOffset)
    else OffsetFrom(reg, id, i + 1)
  }

  function FindOffsetIn(reg: Registry, id: u32): Option<u32> {
    OffsetFrom(reg, id, 0)
  }

  function RegisterAll(reg: Registry, found: seq<(u32, u32)>): (r: (Registry, Result<(), OverlayError>))
    ensures |r.0| == |reg|
    decreases |found|
  {
    if found == [] then (reg, Ok(()))
    else
      var (next, result) := Register(reg, found[0].0, found[0].1);
      if result.Err? then (next, result) else RegisterAll(next, found[1..])
  }

  // ---- Discovery ----

  /** Bytes from one container to the next, as u32 arithmetic computes it. */
  function ContainerStep(codeSize: u32): u32 {
    var s := WrapAdd(HEADER_SIZE + 3, codeSize);
    s - s % 4
  }

  /** Directory entries from the i-th on; `buf` is the entry buffer, reused from read to read. */
  function ScanDirectory(rd: Reader, start: u32, entries: u16, max: nat, i: nat, buf: seq<byte>, found: seq<(u32, u32)>)
    : Result<seq<(u32, u32)>, OverlayError>
    requires ValidReader(rd) && |buf| == ENTRY_SIZE
    decreases entries - i
  {
    if i >= entries || |found| >= max then Ok(found)
    else
      var out := rd(WrapAdd(start, i * ENTRY_SIZE), buf);
      if out.Fault? then Err(OverlayError.Storage)
      else
        var e := DecodeEntry(out.after);
        ScanDirectory(rd, start, entries, max, i + 1, out.after, found + [(e.moduleId, e.flashOffset)])
  }

  /** Containers from the one whose header is in `buf` on. */
  function ScanContainers(rd: Reader, buf: seq<byte>, current: u32, max: nat, found: seq<(u32, u32)>): seq<(u32, u32)>
    requires ValidReader(rd) && |buf| == HEADER_SIZE
    decreases max - |found|
  {
    if |found| >= max then found
    else match DecodeHeader(buf)
      case Err(_) => found
      case Ok(h) =>
        var next := WrapAdd(current, ContainerStep(h.codeSize));
        var out := rd(next, buf);
        var more := found + [(h.moduleId, current)];
        if out.Fault? || out.after[0..4] != OVERLAY_MAGIC then more else ScanContainers(rd, out.after, next, max, more)
  }

  function Discover(rd: Reader, base: u32, max: nat): Result<seq<(u32, u32)>, OverlayError>
    requires ValidReader(rd)
  {
    var out := rd(base, Zeros(HEADER_SIZE));
    if out.Fault? then Err(OverlayError.Storage)
    else if out.after[0..4] == DIR_MAGIC then
      match DecodeDirectory(out.after)
      case Err(e) => Err(e)
      case Ok(dir) => ScanDirectory(rd, WrapAdd(base, HEADER_SIZE), dir.entryCount, max, 0, Zeros(ENTRY_SIZE), [])
    else if out.after[0..4] == OVERLAY_MAGIC then Ok(ScanContainers(rd, out.after, base, max, []))
    else Err(InvalidMagic)
  }

  function MountInto(reg: Registry, rd: Reader, base: u32): (r: (Registry, Result<nat, OverlayError>))
    requires ValidReader(rd)
    ensures |r.0| == |reg|
  {
    match Discover(rd, base, |reg|)
    case Err(e) => (reg, Err(e))
    case Ok(found) =>
      var (next, result) := RegisterAll(reg, found);
      (next, match result case Err(e) => Err(e) case Ok(_) => Ok(|found|))
  }

  /** `entry` is one past the entry point of a slot that holds `id`, an even address: Thumb state. */
  ghost predicate InThumb(m: Manager, id: u32, entry: nat) {
    exists i :: 0 <= i < |m.slots| && m.slots[i].resident == Some(id)
      && entry == (m.slots[i].execAddr + m.slots[i].entryOffset) % 0x1_0000_0000 + 1 && entry % 2 == 1
  }

  // ---- The class ----

  class EmbassyOverlayEngine {
    const manager: OverlayManager
    const registry: array<Option<Registration>>

    ghost predicate Valid()
      reads this, manager, manager.slots, manager.rams
    {
      && manager.Valid()
      && registry as object != manager.slots
      && forall k :: 0 <= k < |manager.rams| ==> registry as object != manager.rams[k]
    }

    constructor (manager: OverlayManager, maxModules: nat)
      ensures this.manager == manager && fresh(registry) && registry.Length == maxModules
      ensures registry[..] == EmptyRegistry(maxModules)
      ensures manager.Valid() ==> Valid()
    {
      this.manager := manager;
      registry := new Option<Registration>[maxModules](_ => None);
      new;
      assert registry[..] == EmptyRegistry(maxModules);
    }

    method RegisterModule(moduleId: u32, flashOffset: u32) returns (r: Result<(), OverlayError>)
      modifies registry
      ensures (registry[..], r) == Register(old(registry[..]), moduleId, flashOffset)
    {
      ghost var was := registry[..];
      for i := 0 to registry.Length
        invariant registry[..] == was
        invariant PlaceFrom(was, moduleId, i) == PlaceFrom(was, moduleId, 0)
      {
        if registry[i].Some? {
          if registry[i].value.moduleId == moduleId {
            registry[i] := Some(registry[i].value.(flashOffset := flashOffset));
            assert registry[..] == was[i := Some(Registration(moduleId, flashOffset))];
            return Ok(());
          }
        } else {
          registry[i] := Some(Registration(moduleId, flashOffset));
          assert registry[..] == was[i := Some(Registration(moduleId, flashOffset))];
          return Ok(());
        }
      }
      return Err(OverlayError.Storage);
    }

    method FindOffset(moduleId: u32) returns (r: Option<u32>)
      ensures r == FindOffsetIn(registry[..], moduleId)
    {
      for i := 0 to registry.Length
        invariant OffsetFrom(registry[..], moduleId, i) == FindOffsetIn(registry[..], moduleId)
      {
        if registry[i].Some? && registry[i].value.moduleId == moduleId {
          return Some(registry[i].value.flashOffset);
        }
      }
      return None;
    }

    method Mount(storage: Reader, baseOffset: u32) returns (r: Result<nat, OverlayError>)
      requires ValidReader(storage)
      modifies registry
      ensures (registry[..], r) == MountInto(old(registry[..]), storage, baseOffset)
      ensures Discover(storage, baseOffset, registry.Length).Err? ==> registry[..] == old(registry[..])
    {
      ghost var was := registry[..];
      var discovered := DiscoverModules(storage, baseOffset);
      if discovered.Err? {
        return Err(discovered.error);
      }
      var found := discovered.value;
      for i := 0 to |found|
        invariant RegisterAll(registry[..], found[i..]) == RegisterAll(was, found)
      {
        assert found[i..][1..] == found[i + 1..];
        var registered := RegisterModule(found[i].0, found[i].1);
        if registered.Err? {
          return Err(registered.error);
        }
      }
      return Ok(|found|);
    }

    /** The discovery half of `mount`: it reads storage and changes nothing. */
    method DiscoverModules(storage: Reader, baseOffset: u32) returns (r: Result<seq<(u32, u32)>, OverlayError>)
      requires ValidReader(storage)
      ensures r == Discover(storage, baseOffset, registry.Length)
    {
      hide DecodeHeader, DecodeDirectory, DecodeEntry;
      var maxModules := registry.Length;
      var first := storage(baseOffset, Zeros(HEADER_SIZE));
      if first.Fault? {
        return Err(OverlayError.Storage);
      }
      var headerBuf := first.after;
      var found: seq<(u32, u32)> := [];
      if headerBuf[0..4] == DIR_MAGIC {
        var decoded := DecodeDirectory(headerBuf);
        if decoded.Err? {
          return Err(decoded.error);
        }
        var entriesStart := WrapAdd(baseOffset, HEADER_SIZE);
        var i, entryBuf := 0, Zeros(ENTRY_SIZE);
        ghost var whole := ScanDirectory(storage, entriesStart, decoded.value.entryCount, maxModules, 0, entryBuf, []);
        while i < decoded.value.entryCount
          invariant i <= decoded.value.entryCount && |entryBuf| == ENTRY_SIZE
          invariant ScanDirectory(storage, entriesStart, decoded.value.entryCount, maxModules, i, entryBuf, found)
                    == whole
        {
          if |found| >= maxModules {
            break;
          }
          var out := storage(WrapAdd(entriesStart, i * ENTRY_SIZE), entryBuf);
          if out.Fault? {
            return Err(OverlayError.Storage);
          }
          entryBuf := out.after;
          var e := DecodeEntry(entryBuf);
          found := found + [(e.moduleId, e.flashOffset)];
          i := i + 1;
        }
        return Ok(found);
      } else if headerBuf[0..4] == OVERLAY_MAGIC {
        found := ScanForContainers(storage, baseOffset, headerBuf, maxModules);
        return Ok(found);
      }
      return Err(InvalidMagic);
    }

    method ScanForContainers(storage: Reader, baseOffset: u32, firstHeader: seq<byte>, maxModules: nat)
      returns (found: seq<(u32, u32)>)
      requires ValidReader(storage) && |firstHeader| == HEADER_SIZE
      ensures found == ScanContainers(storage, firstHeader, baseOffset, maxModules, [])
    {
      hide DecodeHeader;
      found := [];
      var headerBuf, currentOffset: u32 := firstHeader, baseOffset;
      while |found| < maxModules
        invariant |headerBuf| == HEADER_SIZE
        invariant ScanContainers(storage, headerBuf, currentOffset, maxModules, found)
                  == ScanContainers(storage, firstHeader, baseOffset, maxModules, [])
      {
        var decoded := DecodeHeader(headerBuf);
        if decoded.Err? {
          return;
        }
        found := found + [(decoded.value.moduleId, currentOffset)];
        currentOffset := WrapAdd(currentOffset, ContainerStep(decoded.value.codeSize));
        var next := storage(currentOffset, headerBuf);
        if next.Fault? {
          return;
        }
        headerBuf := next.after;
        if headerBuf[0..4] != OVERLAY_MAGIC {
          return;
        }
      }
    }

    /** Runs module `id`: where it starts and its slot as instruction fetches see it, or why it cannot run. */
    method Call(id: u32, hdr: Reader, pay: Reader) returns (r: Result<Execution, OverlayError>)
      requires Valid() && ValidReader(hdr) && ValidReader(pay)
      modifies manager, manager.slots, manager.rams, manager.sync
      ensures Valid() && registry[..] == old(registry[..])
      ensures FindOffsetIn(old(registry[..]), id).None? ==>
                manager.View() == old(manager.View()) && r == Err(ModuleNotFound(id))
      ensures FindOffsetIn(old(registry[..]), id).Some? ==>
                var (m, e) := EnsureResident(old(manager.View()), id, FindOffsetIn(old(registry[..]), id).value,
                                             hdr, pay);
                && manager.View() == m
                && (e.Err? ==> r == Err(e.error))
                && (e.Ok? ==> r.Ok? && EntersAt(m.slots[e.value].execAddr, m.slots[e.value].entryOffset, r.value.entry)
                              && |r.value.code| == |m.rams[e.value]|
                              && forall a :: 0 <= a < |r.value.code| ==> r.value.code[a] == FetchByte(m, e.value, a))
      ensures old(Branchable(manager.View())) ==> Branchable(manager.View())
      ensures old(Branchable(manager.View())) && r.Ok? ==> InThumb(manager.View(), id, r.value.entry)
    {
      hide EnsureResident, FetchByte, FindOffsetIn, manager.View, manager.Valid, EntersAt;
      ghost var was := manager.View();
      var offset := FindOffset(id);
      if offset.None? {
        return Err(ModuleNotFound(id));
      }
      manager.ValidIsShaped();
      if Branchable(was) {
        EnsureBranchable(was, id, offset.value, hdr, pay);
      }
      var slotIdx := manager.EnsureLoaded(id, offset.value, hdr, pay);
      if slotIdx.Err? {
        return Err(slotIdx.error);
      }
      r := manager.CallTyped(slotIdx.value, id);
      if Branchable(was) && r.Ok? {
        ghost var s := manager.View().slots[slotIdx.value];
        AlignedEntry(s.execAddr, s.entryOffset, r.value.entry);
      }
    }

    method Prefetch(id: u32, hdr: Reader, pay: Reader) returns (r: Result<nat, OverlayError>)
      requires Valid() && ValidReader(hdr) && ValidReader(pay)
      modifies manager, manager.slots, manager.rams, manager.sync
      ensures Valid() && registry[..] == old(registry[..])
      ensures FindOffsetIn(old(registry[..]), id).None? ==>
                manager.View() == old(manager.View()) && r == Err(ModuleNotFound(id))
      ensures FindOffsetIn(old(registry[..]), id).Some? ==>
                (manager.View(), r)
                == EnsureResident(old(manager.View()), id, FindOffsetIn(old(registry[..]), id).value, hdr, pay)
    {
      hide EnsureResident;
      var offset := FindOffset(id);
      if offset.None? {
        return Err(ModuleNotFound(id));
      }
      r := manager.EnsureLoaded(id, offset.value, hdr, pay);
    }

    method Evict(id: u32) returns (evicted: bool)
      requires Valid()
      modifies manager.slots
      ensures Valid() && (manager.View(), evicted) == EvictModule(old(manager.View()), id)
    {
      evicted := manager.Evict(id);
    }

    /** Runs `current`, then prefetches `next`; a failed prefetch discards the call's result. */
    method CallAndPrefetch(current: u32, next: u32, h1: Reader, p1: Reader, h2: Reader, p2: Reader)
      returns (r: Result<Execution, OverlayError>)
      requires Valid() && ValidReader(h1) && ValidReader(p1) && ValidReader(h2) && ValidReader(p2)
      modifies manager, manager.slots, manager.rams, manager.sync
      ensures Valid() && registry[..] == old(registry[..])
      ensures var o1, o2 := FindOffsetIn(old(registry[..]), current), FindOffsetIn(old(registry[..]), next);
              o1.Some? && o2.Some? ==>
                var (d, e1) := EnsureResident(old(manager.View()), current, o1.value, h1, p1);
                if e1.Err? then manager.View() == d && r == Err(e1.error)
                else
                  var (d2, e2) := EnsureResident(d, next, o2.value, h2, p2);
                  && manager.View() == d2
                  && (e2.Err? ==> r == Err(e2.error))
                  && (e2.Ok? ==> r.Ok? && EntersAt(d.slots[e1.value].execAddr, d.slots[e1.value].entryOffset,
                                                   r.value.entry)
                                 && |r.value.code| == |d.rams[e1.value]|
                                 && forall a :: 0 <= a < |r.value.code| ==>
                                         r.value.code[a] == FetchByte(d, e1.value, a))
      ensures FindOffsetIn(old(registry[..]), current).None? ==>
                manager.View() == old(manager.View()) && r == Err(ModuleNotFound(current))
      ensures var o1, o2 := FindOffsetIn(old(registry[..]), current), FindOffsetIn(old(registry[..]), next);
              o1.Some? && o2.None? ==>
                var (d, e1) := EnsureResident(old(manager.View()), current, o1.value, h1, p1);
                manager.View() == d && r == Err(if e1.Err? then e1.error else ModuleNotFound(next))
      ensures old(Branchable(manager.View())) && r.Ok? ==> r.value.entry % 2 == 1
    {
      hide EnsureResident, FetchByte, FindOffsetIn, manager.View, manager.Valid, EntersAt, Branchable;
      r := Call(current, h1, p1);
      if r.Ok? {
        var prefetched := Prefetch(next, h2, p2);
        if prefetched.Err? {
          return Err(prefetched.error);
        }
      }
    }
  }
}
