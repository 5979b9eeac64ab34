/** The overlay manager: slots, residency, loads, eviction, and the instruction cache hook. */
module Overlay {
  import opened Bytes
  import opened Crc
  import opened Header
  import opened Storage

  /** A slot's bookkeeping; its RAM buffer is kept beside it. */
  datatype Slot = Slot(
    execAddr: nat, capacity: nat, resident: Option<u32>, entryOffset: u32, generation: u64, pinned: bool)

  type Line = (nat, nat)

  /**
   * Everything the manager reads or writes. `icache` holds bytes of slots by slot and offset; it
   * may hold anything any slot ever held until the hook clears it. `hooks` counts hook calls.
   */
  datatype Manager = Manager(
    slots: seq<Slot>, rams: seq<seq<byte>>, counter: u64, icache: map<Line, byte>, hooks: nat)

  ghost predicate Shaped(m: Manager) {
    |m.rams| == |m.slots| && forall i :: 0 <= i < |m.slots| ==> |m.rams[i]| == m.slots[i].capacity
  }

  function NewSlot(addr: nat, capacity: nat): Slot {
    Slot(addr, capacity, None, 0, 0, false)
  }

  function Evicted(s: Slot): Slot {
    s.(resident := None, entryOffset := 0)
  }

  predicate IsResident(s: Slot, id: u32) {
    s.resident == Some(id)
  }

  // ---- Searches ----

  /** First slot at or after `i` holding `id`. */
  function FindFrom(slots: seq<Slot>, id: u32, i: nat): (r: Option<nat>)
    requires i <= |slots|
    ensures r.Some? ==> i <= r.value < |slots| && IsResident(slots[r.value], id)
    ensures r.None? ==> forall j :: i <= j < |slots| ==> !IsResident(slots[j], id)
    decreases |slots| - i
  {
    if i == |slots| then None else if IsResident(slots[i], id) then Some(i) else FindFrom(slots, id, i + 1)
  }

  function Find(m: Manager, id: u32): Option<nat> {
    FindFrom(m.slots, id, 0)
  }

  predicate EmptyUnpinned(s: Slot) {
    s.resident.None? && !s.pinned
  }

  function EmptyFrom(slots: seq<Slot>, i: nat): (r: Option<nat>)
    requires i <= |slots|
    ensures r.Some? ==> i <= r.value < |slots| && EmptyUnpinned(slots[r.value])
    ensures r.Some? ==> forall j :: i <= j < r.value ==> !EmptyUnpinned(slots[j])
    ensures r.None? ==> forall j :: i <= j < |slots| ==> !EmptyUnpinned(slots[j])
    decreases |slots| - i
  {
    if i == |slots| then None else if EmptyUnpinned(slots[i]) then Some(i) else EmptyFrom(slots, i + 1)
  }

  /** The second loop: the unpinned slot with the smallest generation below the bound so far. */
  function OldestFrom(slots: seq<Slot>, i: nat, best: Option<nat>, minGen: u64): Option<nat>
    requires i <= |slots|
    decreases |slots| - i
  {
    if i == |slots| then best
    else if !slots[i].pinned && slots[i].generation < minGen then OldestFrom(slots, i + 1, Some(i), slots[i].generation)
    else OldestFrom(slots, i + 1, best, minGen)
  }

  function SelectSlot(slots: seq<Slot>): Option<nat> {
    match EmptyFrom(slots, 0)
    case Some(i) => Some(i)
    case None => OldestFrom(slots, 0, None, U64 - 1)
  }

  lemma {:induction false} OldestChoice(slots: seq<Slot>, i: nat, best: Option<nat>, minGen: u64)
    requires i <= |slots|
    requires best.Some? ==> best.value < i && !slots[best.value].pinned && slots[best.value].generation == minGen
    ensures var r := OldestFrom(slots, i, best, minGen);
            && (r.Some? ==> r.value < |slots| && !slots[r.value].pinned && slots[r.value].generation <= minGen
                            && forall j :: i <= j < |slots| && !slots[j].pinned ==>
                                 slots[r.value].generation <= slots[j].generation)
            && (r.Some? && best.None? ==> slots[r.value].generation < minGen)
            && (r.None? ==> best.None? && forall j :: i <= j < |slots| && !slots[j].pinned ==>
                                 minGen <= slots[j].generation)
    decreases |slots| - i
  {
    if i < |slots| {
      if !slots[i].pinned && slots[i].generation < minGen {
        OldestChoice(slots, i + 1, Some(i), slots[i].generation);
      } else {
        OldestChoice(slots, i + 1, best, minGen);
      }
    }
  }

  /**
   * What selection promises: an empty unpinned slot, or else an unpinned one no newer than any other; and
   * exactly when there is none.
   */
  lemma Selection(slots: seq<Slot>)
    ensures var r := SelectSlot(slots);
            && (r.Some? ==> r.value < |slots| && !slots[r.value].pinned)
            && (r.Some? && slots[r.value].resident.Some? ==>
                  forall j :: 0 <= j < |slots| && !slots[j].pinned ==>
                    slots[j].resident.Some? && slots[r.value].generation <= slots[j].generation)
            && (r.Some? && slots[r.value].resident.None? ==>
                  forall j :: 0 <= j < r.value ==> !EmptyUnpinned(slots[j]))
            && (r.None? <==> forall j :: 0 <= j < |slots| && !slots[j].pinned ==>
                  slots[j].resident.Some? && slots[j].generation == U64 - 1)
  {
    OldestChoice(slots, 0, None, U64 - 1);
    assert forall j :: 0 <= j < |slots| && !slots[j].pinned && slots[j].resident.None? ==> EmptyUnpinned(slots[j]);
  }

  // ---- Loading, in the pieces between which other tasks may run ----

  predicate ThumbAligned(addr: nat, entryOffset: nat) {
    addr % 4 == 0 && entryOffset % 2 == 0
  }

  datatype Ticket = Ticket(slot: nat, header: OverlayHeader)

  /** After the header read: which slot to load into, or why not. */
  function Admit(m: Manager, id: u32, header: seq<byte>): (r: Result<Ticket, OverlayError>)
    ensures r.Ok? ==> r.value.slot < |m.slots| && r.value.header.codeSize <= m.slots[r.value.slot].capacity
    ensures r.Ok? ==> DecodeHeader(header) == Ok(r.value.header) && r.value.header.moduleId == id
    ensures r.Ok? ==> SelectSlot(m.slots) == Some(r.value.slot)
    ensures r.Ok? ==> ThumbAligned(m.slots[r.value.slot].execAddr, r.value.header.entryOffset)
  {
    match DecodeHeader(header)
    case Err(e) => Err(e)
    case Ok(h) =>
      if h.moduleId != id then Err(ModuleNotFound(id))
      else
        Selection(m.slots);
        match SelectSlot(m.slots)
        case None => Err(InvalidSlotIndex)
        case Some(i) =>
          if h.codeSize > m.slots[i].capacity then Err(SlotTooSmall(h.codeSize, m.slots[i].capacity))
          else if !ThumbAligned(m.slots[i].execAddr, h.entryOffset) then Err(InvalidAlignment)
          else Ok(Ticket(i, h))
  }

  /** RAM of slot `i` with its first bytes replaced. */
  function Overwrite(m: Manager, i: nat, code: seq<byte>): Manager
    requires i < |m.rams| && |code| <= |m.rams[i]|
  {
    m.(rams := m.rams[i := code + m.rams[i][|code|..]])
  }

  /** After the payload is in RAM: evict on a checksum mismatch, else call the hook and mark the slot. */
  function Finish(m: Manager, id: u32, t: Ticket): (Manager, Result<nat, OverlayError>)
    requires t.slot < |m.slots| == |m.rams| && t.header.codeSize <= |m.rams[t.slot]|
  {
    var crc := Crc32(m.rams[t.slot][..t.header.codeSize]);
    if crc != t.header.payloadCrc then
      (m.(slots := m.slots[t.slot := Evicted(m.slots[t.slot])]), Err(PayloadCrcMismatch(t.header.payloadCrc, crc)))
    else (Marked(Hooked(m), id, t), Ok(t.slot))
  }

  function Hooked(m: Manager): Manager {
    m.(icache := map[], hooks := m.hooks + 1)
  }

  function Marked(m: Manager, id: u32, t: Ticket): Manager
    requires t.slot < |m.slots|
  {
    var g := Bump(m.counter);
    m.(counter := g,
       slots := m.slots[t.slot := m.slots[t.slot].(
                          resident := Some(id), entryOffset := t.header.entryOffset, generation := g)])
  }

  function Touched(m: Manager, i: nat): Manager
    requires i < |m.slots|
  {
    var g := Bump(m.counter);
    m.(counter := g, slots := m.slots[i := m.slots[i].(generation := g)])
  }

  /** The payload read, for a load already admitted to a slot, and what follows it. */
  function LoadAdmitted(m: Manager, id: u32, offset: u32, t: Ticket, pay: Reader)
    : (r: (Manager, Result<nat, OverlayError>))
    requires Shaped(m) && ValidReader(pay) && t.slot < |m.slots| && t.header.codeSize <= m.slots[t.slot].capacity
    ensures Shaped(r.0) && |r.0.slots| == |m.slots|
    ensures r.1.Ok? ==> r.1.value == t.slot && r.0.slots[t.slot].resident == Some(id)
  {
    var out := pay(WrapAdd(offset, HEADER_SIZE), m.rams[t.slot][..t.header.codeSize]);
    var loaded := Overwrite(m, t.slot, out.after);
    if out.Fault? then (loaded, Err(OverlayError.Storage)) else Finish(loaded, id, t)
  }

  /** `hdr` and `pay` are what storage answers to the two reads; flash may change in between. */
  function EnsureResident(m: Manager, id: u32, offset: u32, hdr: Reader, pay: Reader)
    : (r: (Manager, Result<nat, OverlayError>))
    requires Shaped(m) && ValidReader(pay)
    ensures Shaped(r.0) && |r.0.slots| == |m.slots|
    ensures r.1.Ok? ==> r.1.value < |m.slots| && r.0.slots[r.1.value].resident == Some(id)
  {
    match Find(m, id)
    case Some(i) => (Touched(m, i), Ok(i))
    case None =>
      var h := hdr(offset, Zeros(HEADER_SIZE));
      if h.Fault? then (m, Err(OverlayError.Storage))
      else match Admit(m, id, h.after)
        case Err(e) => (m, Err(e))
        case Ok(t) => LoadAdmitted(m, id, offset, t, pay)
  }

  function EvictModule(m: Manager, id: u32): (Manager, bool) {
    match Find(m, id)
    case Some(i) => (m.(slots := m.slots[i := Evicted(m.slots[i])]), true)
    case None => (m, false)
  }

  function SetPin(m: Manager, i: nat, pinned: bool): (Manager, Result<(), OverlayError>) {
    if i < |m.slots| then (m.(slots := m.slots[i := m.slots[i].(pinned := pinned)]), Ok(()))
    else (m, Err(InvalidSlotIndex))
  }

  /** The residency check of a typed call. */
  function CheckCall(m: Manager, i: nat, id: u32): Result<(), OverlayError> {
    if i >= |m.slots| then Err(InvalidSlotIndex)
    else if m.slots[i].resident != Some(id) then Err(ModuleNotFound(id))
    else Ok(())
  }

  /** The address a call branches to, without the Thumb bit. */
  function BranchTarget(s: Slot): u32 {
    WrapAdd(s.execAddr, s.entryOffset)
  }

  /** The same address as the processor is given it: the lowest bit selects Thumb state. */
  function ThumbEntry(addr: u32): u32 {
    if addr % 2 == 0 then addr + 1 else addr
  }

  /**
   * `entry` is `addr | 1` for the address of a slot's entry point, execution address plus entry offset, in
   * 32 bits.
   */
  ghost predicate EntersAt(execAddr: nat, entryOffset: nat, entry: nat) {
    var addr := (execAddr + entryOffset) % 0x1_0000_0000;
    entry == if addr % 2 == 0 then addr + 1 else addr
  }

  /** The code of every resident slot is where a Thumb branch can go. */
  ghost predicate Branchable(m: Manager) {
    forall i :: 0 <= i < |m.slots| && m.slots[i].resident.Some? ==>
      m.slots[i].execAddr % 4 == 0 && m.slots[i].entryOffset % 2 == 0
  }

  lemma EvenSum(a: nat, b: nat)
    requires a % 4 == 0 && b % 2 == 0
    ensures (a + b) % 2 == 0
  {
    assert a == 4 * (a / 4) && b == 2 * (b / 2);
    assert a + b == 2 * (2 * (a / 4) + b / 2);
  }

  lemma EvenRemainder(n: nat)
    requires n % 2 == 0
    ensures (n % 0x1_0000_0000) % 2 == 0
  {
    assert n == 0x1_0000_0000 * (n / 0x1_0000_0000) + n % 0x1_0000_0000;
  }

  /** From such a slot a call enters one past an even address. */
  lemma AlignedEntry(execAddr: nat, entryOffset: nat, entry: nat)
    requires execAddr % 4 == 0 && entryOffset % 2 == 0 && EntersAt(execAddr, entryOffset, entry)
    ensures entry == (execAddr + entryOffset) % 0x1_0000_0000 + 1 && entry % 2 == 1
  {
    EvenSum(execAddr, entryOffset);
    EvenRemainder(execAddr + entryOffset);
  }

  /** Whatever storage answers, a load makes resident only what is so aligned. */
  lemma EnsureBranchable(m: Manager, id: u32, offset: u32, hdr: Reader, pay: Reader)
    requires Shaped(m) && ValidReader(hdr) && ValidReader(pay) && Branchable(m)
    ensures Branchable(EnsureResident(m, id, offset, hdr, pay).0)
  {
    hide Crc32, DecodeHeader, SelectSlot, FindFrom;
  }

  /** A call in progress: where it starts, and the slot as instruction fetches see it. */
  datatype Execution = Execution(entry: u32, code: seq<byte>)

  /** An instruction fetch: from the cache if the byte is there, else from RAM. */
  function FetchByte(m: Manager, i: nat, a: nat): byte
    requires i < |m.rams| && a < |m.rams[i]|
  {
    if (i, a) in m.icache then m.icache[(i, a)] else m.rams[i][a]
  }

  /** The cache may take in a byte of RAM at any time. */
  function FillLine(m: Manager, i: nat, a: nat): Manager
    requires i < |m.rams| && a < |m.rams[i]|
  {
    if (i, a) in m.icache then m else m.(icache := m.icache[(i, a) := m.rams[i][a]])
  }

  // ---- The classes ----

  /** The synchronisation hook together with the instruction cache it governs. */
  class InstructionCache {
    var lines: map<Line, byte>
    var calls: nat

    constructor ()
      ensures lines == map[] && calls == 0
    {
      lines, calls := map[], 0;
    }

    method CodeLoaded()
      modifies this
      ensures lines == map[] && calls == old(calls) + 1
    {
      lines, calls := map[], calls + 1;
    }
  }

  class OverlayManager {
    const slots: array<Slot>
    const rams: seq<array<byte>>
    var lruCounter: u64
    const sync: InstructionCache

    ghost predicate Valid()
      reads this, slots, rams
    {
      && |rams| == slots.Length
      && (forall i :: 0 <= i < |rams| ==> rams[i].Length == slots[i].capacity)
      && (forall i, j :: 0 <= i < j < |rams| ==> rams[i] != rams[j])
      && (forall i :: 0 <= i < |rams| ==> rams[i] as object != slots)
    }

    ghost function RamView(): (r: seq<seq<byte>>)
      reads this, rams
      ensures |r| == |rams| && forall i :: 0 <= i < |rams| ==> r[i] == rams[i][..]
    {
      seq(|rams|, i requires 0 <= i < |rams| reads rams => rams[i][..])
    }

    ghost function View(): Manager
      reads this, slots, rams, sync
    {
      Manager(slots[..], RamView(), lruCounter, sync.lines, sync.calls)
    }

    constructor (rams: seq<array<byte>>, addrs: seq<nat>, sync: InstructionCache)
      requires |rams| == |addrs| && forall i, j :: 0 <= i < j < |rams| ==> rams[i] != rams[j]
      ensures Valid() && fresh(slots) && this.rams == rams && this.sync == sync && lruCounter == 0
      ensures forall i :: 0 <= i < |rams| ==>
                && slots[i].execAddr == addrs[i] && slots[i].capacity == rams[i].Length && slots[i].resident.None?
                && slots[i].entryOffset == 0 && slots[i].generation == 0 && !slots[i].pinned
    {
      this.rams := rams;
      this.sync := sync;
      lruCounter := 0;
      slots := new Slot[|rams|](i requires 0 <= i < |rams| reads rams => NewSlot(addrs[i], rams[i].Length));
    }

    lemma ValidIsShaped()
      requires Valid()
      ensures Shaped(View())
    {
    }

    method FindResidentSlot(id: u32) returns (r: Option<nat>)
      requires Valid()
      ensures r == Find(View(), id)
    {
      for i := 0 to slots.Length
        invariant FindFrom(slots[..], id, i) == FindFrom(slots[..], id, 0)
      {
        if IsResident(slots[i], id) {
          return Some(i);
        }
      }
      return None;
    }

    method SelectEvictionSlot() returns (r: Option<nat>)
      requires Valid()
      ensures r == SelectSlot(slots[..])
    {
      for i := 0 to slots.Length
        invariant EmptyFrom(slots[..], i) == EmptyFrom(slots[..], 0)
      {
        if slots[i].resident.None? && !slots[i].pinned {
          return Some(i);
        }
      }
      var bestIdx: Option<nat> := None;
      var minGen: u64 := U64 - 1;
      for i := 0 to slots.Length
        invariant OldestFrom(slots[..], i, bestIdx, minGen) == OldestFrom(slots[..], 0, None, U64 - 1)
      {
        if !slots[i].pinned && slots[i].generation < minGen {
          minGen := slots[i].generation;
          bestIdx := Some(i);
        }
      }
      return bestIdx;
    }

    method SetSlot(i: nat, s: Slot)
      requires Valid() && i < slots.Length && s.capacity == slots[i].capacity
      modifies slots
      ensures Valid() && View() == old(View()).(slots := old(slots[..])[i := s])
    {
      slots[i] := s;
      assert slots[..] == old(slots[..])[i := s];
      assert RamView() == old(RamView());
    }

    method NextGeneration() returns (g: u64)
      requires Valid()
      modifies `lruCounter
      ensures Valid() && g == Bump(old(lruCounter)) && View() == old(View()).(counter := g)
    {
      lruCounter := Bump(lruCounter);
      g := lruCounter;
      assert RamView() == old(RamView());
    }

    /** Streams `len` bytes into slot `i`'s buffer. */
    method Stream(storage: Reader, offset: nat, i: nat, len: nat) returns (ok: bool)
      requires Valid() && i < slots.Length && len <= rams[i].Length && ValidReader(storage)
      modifies rams
      ensures Valid()
      ensures var out := storage(offset, old(rams[i][..len]));
              ok == out.Done? && View() == Overwrite(old(View()), i, out.after)
    {
      ghost var was, m := RamView(), View();
      ghost var out := storage(offset, rams[i][..len]);
      ok := ReadInto(storage, offset, rams[i], len);
      assert was[i] == old(rams[i][..]) && |out.after| == len;
      assert rams[i][..] == out.after + was[i][len..];
      forall j | 0 <= j < |rams| ensures RamView()[j] == was[i := out.after + was[i][len..]][j] {
        if j != i {
          assert rams[j] != rams[i];
        }
      }
    }

    method EnsureLoaded(id: u32, flashOffset: u32, hdr: Reader, pay: Reader) returns (r: Result<nat, OverlayError>)
      requires Valid() && ValidReader(hdr) && ValidReader(pay)
      modifies this, slots, rams, sync
      ensures Valid() && (View(), r) == EnsureResident(old(View()), id, flashOffset, hdr, pay)
    {
      hide Crc32, DecodeHeader, SelectSlot, FindFrom, Admit, Finish;
      var found := FindResidentSlot(id);
      if found.Some? {
        var gen := NextGeneration();
        SetSlot(found.value, slots[found.value].(generation := gen));
        return Ok(found.value);
      }
      var admitted := ReadHeader(id, flashOffset, hdr);
      if admitted.Err? {
        return Err(admitted.error);
      }
      var t := admitted.value;
      var streamed := Stream(pay, WrapAdd(flashOffset, HEADER_SIZE), t.slot, t.header.codeSize);
      if !streamed {
        return Err(OverlayError.Storage);
      }
      r := Verify(id, t.slot, t.header);
    }

    /** The start of a load: the header read and every test made before the payload is streamed. */
    method ReadHeader(id: u32, flashOffset: u32, hdr: Reader) returns (r: Result<Ticket, OverlayError>)
      requires Valid() && ValidReader(hdr)
      ensures var h := hdr(flashOffset, Zeros(HEADER_SIZE));
              r == if h.Fault? then Err(OverlayError.Storage) else Admit(View(), id, h.after)
    {
      hide Crc32, SelectSlot;
      var headerBuf := new byte[32](_ => 0);
      assert headerBuf[..] == headerBuf[..32] == Zeros(HEADER_SIZE);
      ghost var answer := hdr(flashOffset, Zeros(HEADER_SIZE));
      var read := ReadInto(hdr, flashOffset, headerBuf, 32);
      assert headerBuf[..] == answer.after;
      if !read {
        return Err(OverlayError.Storage);
      }
      var decoded := DecodeHeader(headerBuf[..]);
      if decoded.Err? {
        return Err(decoded.error);
      }
      var header := decoded.value;
      if header.moduleId != id {
        return Err(ModuleNotFound(id));
      }
      var selected := SelectEvictionSlot();
      Selection(slots[..]);
      if selected.None? {
        return Err(InvalidSlotIndex);
      }
      var slotIdx := selected.value;
      if header.codeSize > slots[slotIdx].capacity {
        return Err(SlotTooSmall(header.codeSize, slots[slotIdx].capacity));
      }
      if !ThumbAligned(slots[slotIdx].execAddr, header.entryOffset) {
        return Err(InvalidAlignment);
      }
      return Ok(Ticket(slotIdx, header));
    }

    /** The end of a load: checksum, hook, residency. */
    method Verify(id: u32, slotIdx: nat, header: OverlayHeader) returns (r: Result<nat, OverlayError>)
      requires Valid() && slotIdx < slots.Length && header.codeSize <= rams[slotIdx].Length
      modifies this, slots, sync
      ensures Valid() && (View(), r) == Finish(old(View()), id, Ticket(slotIdx, header))
    {
      hide Crc32;
      var calculatedCrc := Crc32(rams[slotIdx][..header.codeSize]);
      assert RamView()[slotIdx][..header.codeSize] == rams[slotIdx][..header.codeSize];
      if calculatedCrc != header.payloadCrc {
        SetSlot(slotIdx, Evicted(slots[slotIdx]));
        return Err(PayloadCrcMismatch(header.payloadCrc, calculatedCrc));
      }
      sync.CodeLoaded();
      assert RamView() == old(RamView());
      var nextGen := NextGeneration();
      SetSlot(slotIdx, slots[slotIdx].(resident := Some(id), entryOffset := header.entryOffset, generation := nextGen));
      return Ok(slotIdx);
    }

    method Evict(id: u32) returns (evicted: bool)
      requires Valid()
      modifies slots
      ensures Valid() && (View(), evicted) == EvictModule(old(View()), id)
    {
      var found := FindResidentSlot(id);
      if found.Some? {
        SetSlot(found.value, Evicted(slots[found.value]));
        return true;
      }
      return false;
    }

    method PinSlot(slotIdx: nat) returns (r: Result<(), OverlayError>)
      requires Valid()
      modifies slots
      ensures Valid() && (View(), r) == SetPin(old(View()), slotIdx, true)
    {
      if slotIdx >= slots.Length {
        return Err(InvalidSlotIndex);
      }
      SetSlot(slotIdx, slots[slotIdx].(pinned := true));
      return Ok(());
    }

    method UnpinSlot(slotIdx: nat) returns (r: Result<(), OverlayError>)
      requires Valid()
      modifies slots
      ensures Valid() && (View(), r) == SetPin(old(View()), slotIdx, false)
    {
      if slotIdx >= slots.Length {
        return Err(InvalidSlotIndex);
      }
      SetSlot(slotIdx, slots[slotIdx].(pinned := false));
      return Ok(());
    }

    /** A typed call: it starts at the slot's entry, and runs what instruction fetches of the slot return. */
    method CallTyped(slotIdx: nat, id: u32) returns (r: Result<Execution, OverlayError>)
      requires Valid()
      ensures r.Err? <==> CheckCall(View(), slotIdx, id).Err?
      ensures r.Ok? <==> slotIdx < slots.Length && slots[slotIdx].resident == Some(id)
      ensures r.Err? ==> r.error == if slotIdx >= slots.Length then InvalidSlotIndex else ModuleNotFound(id)
      ensures r.Ok? ==> r.value.entry == ThumbEntry(BranchTarget(View().slots[slotIdx]))
      ensures r.Ok? ==>
                var s := View().slots[slotIdx];
                s == slots[slotIdx] && EntersAt(s.execAddr, s.entryOffset, r.value.entry)
      ensures r.Ok? ==> |r.value.code| == |View().rams[slotIdx]|
                        && forall a :: 0 <= a < |r.value.code| ==> r.value.code[a] == FetchByte(View(), slotIdx, a)
    {
      if slotIdx >= slots.Length {
        return Err(InvalidSlotIndex);
      }
      if slots[slotIdx].resident != Some(id) {
        return Err(ModuleNotFound(id));
      }
      var entryAddr := ThumbEntry(WrapAdd(slots[slotIdx].execAddr, slots[slotIdx].entryOffset));
      var code := [];
      for a := 0 to rams[slotIdx].Length
        invariant |code| == a && forall b :: 0 <= b < a ==> code[b] == FetchByte(View(), slotIdx, b)
      {
        code := code + [if (slotIdx, a) in sync.lines then sync.lines[(slotIdx, a)] else rams[slotIdx][a]];
      }
      return Ok(Execution(entryAddr, code));
    }
  }
}
