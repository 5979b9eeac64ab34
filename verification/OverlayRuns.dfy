/** What every run of the overlay manager keeps. */
module OverlayRuns {
  import opened Bytes
  import opened Crc
  import opened CrcTheory
  import opened Header
  import opened Storage
  import opened Overlay
  import opened LruTheory

  // ---- The invariant ----

  /** No module is resident in two slots. */
  ghost predicate Unique(m: Manager) {
    forall i, j :: 0 <= i < j < |m.slots| && m.slots[i].resident.Some? ==> m.slots[i].resident != m.slots[j].resident
  }

  /** Generations of resident slots are distinct and at most the counter. */
  ghost predicate Stamped(m: Manager) {
    && (forall i :: 0 <= i < |m.slots| && m.slots[i].resident.Some? ==> m.slots[i].generation <= m.counter)
    && (forall i, j :: 0 <= i < j < |m.slots| && m.slots[i].resident.Some? && m.slots[j].resident.Some? ==>
          m.slots[i].generation != m.slots[j].generation)
  }

  /** What storage answered to the two reads of a load. */
  datatype Record = Record(header: seq<byte>, code: seq<byte>)

  /**
   * The header that was read is valid, its checksum is that of the payload that was read, and the slot
   * claims what that header says over RAM that starts with that payload.
   */
  ghost predicate Vouches(r: Record, s: Slot, ram: seq<byte>) {
    && |r.header| == HEADER_SIZE && DecodeHeader(r.header).Ok?
    && var h := DecodeHeader(r.header).value;
       && s.resident == Some(h.moduleId) && s.entryOffset == h.entryOffset && ThumbAligned(s.execAddr, h.entryOffset)
       && |r.code| == h.codeSize && Crc32(r.code) == h.payloadCrc
       && r.code <= ram
  }

  /** Every resident slot holds what its last load, as recorded in `recs`, was given. */
  ghost predicate Backed(m: Manager, recs: seq<Option<Record>>) {
    && |recs| == |m.slots| == |m.rams|
    && forall i :: 0 <= i < |m.slots| && m.slots[i].resident.Some? ==>
         recs[i].Some? && Vouches(recs[i].value, m.slots[i], m.rams[i])
  }

  /** A cached byte of a resident slot is the byte in its RAM. */
  ghost predicate CacheAgrees(m: Manager) {
    forall l :: l in m.icache && l.0 < |m.slots| && l.0 < |m.rams| && m.slots[l.0].resident.Some? ==>
      l.1 < |m.rams[l.0]| && m.icache[l] == m.rams[l.0][l.1]
  }

  ghost predicate Good(m: Manager) {
    Shaped(m) && Unique(m) && Stamped(m) && CacheAgrees(m)
  }

  /** The counter stays below the one value slot selection cannot see past. */
  predicate Room(m: Manager, steps: nat) {
    m.counter + steps < U64 - 1
  }

  ghost predicate Fair(hdr: Reader, pay: Reader) {
    ValidReader(hdr) && ValidReader(pay) && CleanFaults(pay)
  }

  // ---- Steps ----

  lemma TouchedGood(m: Manager, i: nat)
    requires Good(m) && Room(m, 1) && i < |m.slots|
    ensures Good(Touched(m, i))
  {
  }

  lemma EvictedGood(m: Manager, id: u32)
    requires Good(m)
    ensures Good(EvictModule(m, id).0) && Find(EvictModule(m, id).0, id).None?
  {
    var d := EvictModule(m, id).0;
    assert forall j :: 0 <= j < |d.slots| && d.slots[j].resident.Some? ==> d.slots[j] == m.slots[j];
  }

  lemma PinGood(m: Manager, i: nat, pinned: bool)
    requires Good(m)
    ensures Good(SetPin(m, i, pinned).0)
  {
  }

  lemma FillGood(m: Manager, i: nat, a: nat)
    requires Good(m) && i < |m.rams| && a < |m.rams[i]|
    ensures Good(FillLine(m, i, a))
  {
  }

  /** Slot `i` emptied over any bytes. */
  lemma EmptiedGood(m: Manager, i: nat, ram: seq<byte>)
    requires Good(m) && i < |m.slots| && |ram| == m.slots[i].capacity
    ensures Good(m.(rams := m.rams[i := ram], slots := m.slots[i := Evicted(m.slots[i])]))
  {
    var d := m.(rams := m.rams[i := ram], slots := m.slots[i := Evicted(m.slots[i])]);
    assert forall j :: 0 <= j < |d.slots| && d.slots[j].resident.Some? ==>
             d.slots[j] == m.slots[j] && d.rams[j] == m.rams[j];
  }

  /** Slot `i` marked for a module held nowhere, over any bytes and an empty cache. */
  lemma MarkedGood(m: Manager, i: nat, ram: seq<byte>, id: u32, t: Ticket, hooks: nat)
    requires Good(m) && Room(m, 1) && Find(m, id).None? && t.slot == i < |m.slots| && |ram| == m.slots[i].capacity
    ensures Good(Marked(m.(rams := m.rams[i := ram], icache := map[], hooks := hooks), id, t))
  {
    hide FindFrom;
    var d := Marked(m.(rams := m.rams[i := ram], icache := map[], hooks := hooks), id, t);
    OthersHoldOthers(m, id, i);
    assert forall j :: 0 <= j < |d.slots| && j != i ==> d.slots[j] == m.slots[j];
  }

  /** A payload that arrived whole: marked, or the victim is evicted. */
  lemma LoadGood(m: Manager, id: u32, header: seq<byte>, code: seq<byte>)
    requires Good(m) && Room(m, 1) && Find(m, id).None? && |header| == HEADER_SIZE
    requires Admit(m, id, header).Ok? && |code| == Admit(m, id, header).value.header.codeSize
    ensures var t := Admit(m, id, header).value;
            Good(Finish(Overwrite(m, t.slot, code), id, t).0)
  {
    hide Crc32, Admit, Good, FindFrom;
    assert Shaped(m) by { GoodShaped(m); }
    var t := Admit(m, id, header).value;
    var ram := code + m.rams[t.slot][|code|..];
    if Crc32(Overwrite(m, t.slot, code).rams[t.slot][..t.header.codeSize]) == t.header.payloadCrc {
      MarkedGood(m, t.slot, ram, id, t, m.hooks + 1);
    } else {
      EmptiedGood(m, t.slot, ram);
    }
  }

  lemma CleanOverwrite(m: Manager, i: nat, len: nat)
    requires i < |m.rams| && len <= |m.rams[i]|
    ensures Overwrite(m, i, m.rams[i][..len]) == m
  {
    assert m.rams[i][..len] + m.rams[i][len..] == m.rams[i];
    assert m.rams[i := m.rams[i]] == m.rams;
  }

  /** Whatever storage answers, as long as failed payload reads leave the buffer alone. */
  lemma EnsureGood(m: Manager, id: u32, offset: u32, hdr: Reader, pay: Reader)
    requires Good(m) && Room(m, 1) && Fair(hdr, pay)
    ensures Good(EnsureResident(m, id, offset, hdr, pay).0)
  {
    hide Crc32, DecodeHeader, Admit, Finish, Good, FindFrom;
    assert Shaped(m) by { GoodShaped(m); }
    if Find(m, id).Some? {
      TouchedGood(m, Find(m, id).value);
    } else {
      var h := hdr(offset, Zeros(HEADER_SIZE));
      if h.Done? && Admit(m, id, h.after).Ok? {
        var t := Admit(m, id, h.after).value;
        var out := pay(WrapAdd(offset, HEADER_SIZE), m.rams[t.slot][..t.header.codeSize]);
        if out.Fault? {
          CleanOverwrite(m, t.slot, t.header.codeSize);
        } else {
          LoadGood(m, id, h.after, out.after);
        }
      }
    }
  }

  lemma GoodShaped(m: Manager)
    requires Good(m)
    ensures Shaped(m)
  {
  }

  // ---- What each load was given ----

  /** This request loads: a miss that storage answers and nothing refuses. */
  ghost predicate LoadsNow(m: Manager, id: u32, offset: u32, hdr: Reader, pay: Reader)
    requires Shaped(m) && ValidReader(pay)
  {
    && Find(m, id).None? && Admit(m, id, hdr(offset, Zeros(HEADER_SIZE)).after).Ok?
    && EnsureResident(m, id, offset, hdr, pay).1.Ok?
  }

  /** The slot such a load goes into, and what storage answered to its two reads. */
  ghost function LoadSlot(m: Manager, id: u32, offset: u32, hdr: Reader, pay: Reader): (i: nat)
    requires Shaped(m) && ValidReader(pay) && LoadsNow(m, id, offset, hdr, pay)
    ensures i < |m.slots|
  {
    Admit(m, id, hdr(offset, Zeros(HEADER_SIZE)).after).value.slot
  }

  ghost function LoadRecord(m: Manager, id: u32, offset: u32, hdr: Reader, pay: Reader): Record
    requires Shaped(m) && ValidReader(pay) && LoadsNow(m, id, offset, hdr, pay)
  {
    var h := hdr(offset, Zeros(HEADER_SIZE)).after;
    var t := Admit(m, id, h).value;
    Record(h, pay(WrapAdd(offset, HEADER_SIZE), m.rams[t.slot][..t.header.codeSize]).after)
  }

  /** A request leaves the records alone unless it loads. */
  ghost function NextRecords(m: Manager, recs: seq<Option<Record>>, id: u32, offset: u32, hdr: Reader, pay: Reader)
    : (r: seq<Option<Record>>)
    requires Shaped(m) && ValidReader(pay) && |recs| == |m.slots|
    ensures |r| == |recs|
  {
    if LoadsNow(m, id, offset, hdr, pay)
    then recs[LoadSlot(m, id, offset, hdr, pay) := Some(LoadRecord(m, id, offset, hdr, pay))]
    else recs
  }

  /** Generation and pin play no part in what a slot claims. */
  lemma SameClaim(r: Record, s: Slot, t: Slot, ram: seq<byte>)
    requires Vouches(r, s, ram) && t.resident == s.resident && t.entryOffset == s.entryOffset
             && t.execAddr == s.execAddr
    ensures Vouches(r, t, ram)
  {
  }

  /** A manager whose resident slots are `m`'s, with `m`'s RAM, is backed by the same records. */
  lemma KeptBacked(m: Manager, d: Manager, recs: seq<Option<Record>>)
    requires Backed(m, recs) && |d.slots| == |m.slots| && d.rams == m.rams
    requires forall i :: 0 <= i < |m.slots| && d.slots[i].resident.Some? ==>
               d.slots[i].resident == m.slots[i].resident && d.slots[i].entryOffset == m.slots[i].entryOffset
               && d.slots[i].execAddr == m.slots[i].execAddr
    ensures Backed(d, recs)
  {
    hide Vouches;
    forall i | 0 <= i < |d.slots| && d.slots[i].resident.Some? ensures Vouches(recs[i].value, d.slots[i], d.rams[i]) {
      SameClaim(recs[i].value, m.slots[i], d.slots[i], m.rams[i]);
    }
  }

  /**
   * Writing a payload into the slot and marking it resident without looking at the checksum: the slot
   * is backed by what was read if and only if the checksum matches.
   */
  lemma MarkBackedIffChecked(m: Manager, recs: seq<Option<Record>>, id: u32, header: seq<byte>, code: seq<byte>)
    requires Shaped(m) && Backed(m, recs) && |header| == HEADER_SIZE
    requires Admit(m, id, header).Ok? && |code| == Admit(m, id, header).value.header.codeSize
    ensures var t := Admit(m, id, header).value;
            Backed(Marked(Hooked(Overwrite(m, t.slot, code)), id, t), recs[t.slot := Some(Record(header, code))])
            <==> Crc32(code) == t.header.payloadCrc
  {
    hide Crc32, DecodeHeader, SelectSlot;
    var t := Admit(m, id, header).value;
    var d, after := Marked(Hooked(Overwrite(m, t.slot, code)), id, t), recs[t.slot := Some(Record(header, code))];
    assert code <= d.rams[t.slot];
    assert d.slots[t.slot].resident == Some(id);
    if Crc32(code) == t.header.payloadCrc {
      forall j | 0 <= j < |d.slots| && d.slots[j].resident.Some?
        ensures after[j].Some? && Vouches(after[j].value, d.slots[j], d.rams[j])
      {
        if j != t.slot {
          assert d.slots[j] == m.slots[j] && d.rams[j] == m.rams[j];
        }
      }
    }
  }

  /** An evicted slot needs no backing, whatever its RAM. */
  lemma MismatchBacked(m: Manager, recs: seq<Option<Record>>, id: u32, t: Ticket, code: seq<byte>)
    requires Shaped(m) && Backed(m, recs) && t.slot < |m.slots| && |code| == t.header.codeSize <= |m.rams[t.slot]|
    requires Crc32(code) != t.header.payloadCrc
    ensures Backed(Finish(Overwrite(m, t.slot, code), id, t).0, recs)
  {
    hide Crc32, DecodeHeader, Vouches;
    var d := Finish(Overwrite(m, t.slot, code), id, t).0;
    assert Overwrite(m, t.slot, code).rams[t.slot][..t.header.codeSize] == code;
    assert forall j :: 0 <= j < |d.slots| && d.slots[j].resident.Some? ==>
             d.slots[j] == m.slots[j] && d.rams[j] == m.rams[j];
  }

  /**
   * One request, whatever storage answers: afterwards every resident slot still holds what its own last
   * load was given, under a header whose checksum that payload has.
   */
  lemma EnsureBacked(m: Manager, recs: seq<Option<Record>>, id: u32, offset: u32, hdr: Reader, pay: Reader)
    requires Shaped(m) && Backed(m, recs) && Fair(hdr, pay)
    ensures Backed(EnsureResident(m, id, offset, hdr, pay).0, NextRecords(m, recs, id, offset, hdr, pay))
  {
    hide Crc32, DecodeHeader, Admit, Finish, FindFrom, Backed;
    if Find(m, id).Some? {
      BackedSizes(m, recs);
      KeptBacked(m, Touched(m, Find(m, id).value), recs);
    } else {
      var h := hdr(offset, Zeros(HEADER_SIZE));
      if h.Done? && Admit(m, id, h.after).Ok? {
        var t := Admit(m, id, h.after).value;
        var out := pay(WrapAdd(offset, HEADER_SIZE), m.rams[t.slot][..t.header.codeSize]);
        if out.Fault? {
          CleanOverwrite(m, t.slot, t.header.codeSize);
        } else {
          ArrivedBacked(m, recs, id, h.after, out.after);
        }
      }
    }
  }

  lemma BackedSizes(m: Manager, recs: seq<Option<Record>>)
    requires Backed(m, recs)
    ensures |recs| == |m.slots| == |m.rams|
  {
  }

  lemma ArrivedBacked(m: Manager, recs: seq<Option<Record>>, id: u32, header: seq<byte>, code: seq<byte>)
    requires Shaped(m) && Backed(m, recs) && |header| == HEADER_SIZE
    requires Admit(m, id, header).Ok? && |code| == Admit(m, id, header).value.header.codeSize
    ensures var t := Admit(m, id, header).value;
            var (d, r) := Finish(Overwrite(m, t.slot, code), id, t);
            |recs| == |m.slots| && Backed(d, if r.Ok? then recs[t.slot := Some(Record(header, code))] else recs)
  {
    hide Crc32, DecodeHeader, Admit, Backed;
    var t := Admit(m, id, header).value;
    BackedSizes(m, recs);
    assert Overwrite(m, t.slot, code).rams[t.slot][..t.header.codeSize] == code;
    if Crc32(code) == t.header.payloadCrc {
      MarkBackedIffChecked(m, recs, id, header, code);
    } else {
      MismatchBacked(m, recs, id, t, code);
    }
  }

  // ---- One load ----

  /** The hook runs exactly once for a load that succeeds, and not otherwise. */
  lemma HookOncePerLoad(m: Manager, id: u32, offset: u32, hdr: Reader, pay: Reader)
    requires Shaped(m) && ValidReader(hdr) && ValidReader(pay)
    ensures var (d, r) := EnsureResident(m, id, offset, hdr, pay);
            && d.hooks == m.hooks + (if r.Ok? && Find(m, id).None? then 1 else 0)
            && (r.Ok? && Find(m, id).None? ==> d.icache == map[])
            && (r.Err? || Find(m, id).Some? ==> d.icache == m.icache)
  {
    hide Crc32, DecodeHeader, Admit, FindFrom;
  }

  /** A load that fails changes at most the chosen victim: never the counter, the cache or another slot. */
  lemma FailedLoadTouchesOnlyVictim(m: Manager, id: u32, offset: u32, hdr: Reader, pay: Reader, j: nat)
    requires Shaped(m) && ValidReader(hdr) && ValidReader(pay) && j < |m.slots|
    requires EnsureResident(m, id, offset, hdr, pay).1.Err?
    ensures var (d, r) := EnsureResident(m, id, offset, hdr, pay);
            && d.counter == m.counter && d.icache == m.icache && d.hooks == m.hooks
            && (SelectSlot(m.slots) != Some(j) ==> d.slots[j] == m.slots[j] && d.rams[j] == m.rams[j])
            && (d.slots[j] == m.slots[j] || d.slots[j] == Evicted(m.slots[j]))
            && (r.error != OverlayError.Storage && !r.error.PayloadCrcMismatch? ==> d == m)
  {
    hide Crc32, DecodeHeader, SelectSlot, FindFrom;
  }

  /** What a load needs of storage and of slot `v`. */
  ghost predicate Loadable(m: Manager, id: u32, offset: u32, hdr: Reader, pay: Reader, v: nat)
    requires Shaped(m)
  {
    var h := hdr(offset, Zeros(HEADER_SIZE));
    && h.Done? && v < |m.slots| && DecodeHeader(h.after).Ok?
    && var x := DecodeHeader(h.after).value;
       && x.moduleId == id && x.codeSize <= m.slots[v].capacity && ThumbAligned(m.slots[v].execAddr, x.entryOffset)
       && var out := pay(WrapAdd(offset, HEADER_SIZE), m.rams[v][..x.codeSize]);
          out.Done? && Crc32(out.after) == x.payloadCrc
  }

  /**
   * A module that is not resident loads if and only if a slot is selected and that slot, no other,
   * can take it: a load is refused for want of room even while another unpinned slot is large enough.
   */
  lemma LoadSucceedsIff(m: Manager, id: u32, offset: u32, hdr: Reader, pay: Reader)
    requires Shaped(m) && ValidReader(hdr) && ValidReader(pay) && Find(m, id).None?
    ensures EnsureResident(m, id, offset, hdr, pay).1.Ok? <==>
            SelectSlot(m.slots).Some? && Loadable(m, id, offset, hdr, pay, SelectSlot(m.slots).value)
  {
    hide Crc32, DecodeHeader, SelectSlot, FindFrom;
    var h := hdr(offset, Zeros(HEADER_SIZE));
    Selection(m.slots);
    if h.Done? && DecodeHeader(h.after).Ok? && SelectSlot(m.slots).Some? {
      var x, v := DecodeHeader(h.after).value, SelectSlot(m.slots).value;
      if x.codeSize <= m.slots[v].capacity {
        var out := pay(WrapAdd(offset, HEADER_SIZE), m.rams[v][..x.codeSize]);
        assert Overwrite(m, v, out.after).rams[v][..x.codeSize] == out.after;
      }
    }
  }

  /** Slot `i` of a manager whose slots agree with `m`'s in everything but generation. */
  ghost predicate Kept(m: Manager, d: Manager, i: nat) {
    && i < |m.slots| == |d.slots| && i < |m.rams| == |d.rams|
    && d.slots[i].resident == m.slots[i].resident && d.slots[i].entryOffset == m.slots[i].entryOffset
    && d.slots[i].pinned == m.slots[i].pinned && d.slots[i].execAddr == m.slots[i].execAddr
    && d.slots[i].capacity == m.slots[i].capacity && d.rams[i] == m.rams[i]
  }

  /** A load keeps every slot other than the one it selects, whatever storage does. */
  lemma EnsureKeeps(m: Manager, id: u32, offset: u32, hdr: Reader, pay: Reader, i: nat)
    requires Shaped(m) && ValidReader(hdr) && ValidReader(pay) && i < |m.slots|
    requires Find(m, id).Some? || SelectSlot(m.slots) != Some(i)
    ensures Kept(m, EnsureResident(m, id, offset, hdr, pay).0, i)
  {
    hide Crc32, DecodeHeader, SelectSlot, FindFrom;
  }

  // ---- Corruption ----

  /**
   * The load of `id` reaches its payload read, and storage returns something other than `original`,
   * the bytes the header's checksum was made from.
   */
  ghost predicate PayloadChanged(m: Manager, id: u32, offset: u32, hdr: Reader, pay: Reader,
                                 original: seq<byte>, received: seq<byte>)
    requires Shaped(m)
  {
    var h := hdr(offset, Zeros(HEADER_SIZE));
    && Find(m, id).None? && h.Done? && Admit(m, id, h.after).Ok?
    && var t := Admit(m, id, h.after).value;
       && pay(WrapAdd(offset, HEADER_SIZE), m.rams[t.slot][..t.header.codeSize]) == Done(received)
       && |original| == t.header.codeSize && Crc32(original) == t.header.payloadCrc && received != original
  }

  /** A payload hit by a burst of at most 32 bits is refused, and its module is nowhere resident. */
  lemma BurstPayloadRefused(m: Manager, id: u32, offset: u32, hdr: Reader, pay: Reader,
                            original: seq<byte>, received: seq<byte>, k: nat)
    requires Good(m) && ValidReader(hdr) && ValidReader(pay)
             && PayloadChanged(m, id, offset, hdr, pay, original, received)
    requires |received| == |original| && AgreeOutside(MessageBits(original), MessageBits(received), k, 32)
    ensures var (d, r) := EnsureResident(m, id, offset, hdr, pay);
            r.Err? && r.error.PayloadCrcMismatch? && Find(d, id).None?
  {
    hide Crc32, DecodeHeader, Admit, SelectSlot, AgreeOutside, MessageBits;
    BurstDetected(original, received, k);
    var t := Admit(m, id, hdr(offset, Zeros(HEADER_SIZE)).after).value;
    assert Overwrite(m, t.slot, received).rams[t.slot][..t.header.codeSize] == received;
    var d := EnsureResident(m, id, offset, hdr, pay).0;
    assert forall j :: 0 <= j < |d.slots| ==> d.slots[j] == m.slots[j] || d.slots[j].resident.None?;
  }

  /** The same for damage confined to four consecutive bytes. */
  lemma DamagedPayloadRefused(m: Manager, id: u32, offset: u32, hdr: Reader, pay: Reader,
                              original: seq<byte>, received: seq<byte>, k: nat)
    requires Good(m) && ValidReader(hdr) && ValidReader(pay)
             && PayloadChanged(m, id, offset, hdr, pay, original, received)
    requires AgreeOutside(original, received, k, 4)
    ensures var (d, r) := EnsureResident(m, id, offset, hdr, pay);
            r.Err? && r.error.PayloadCrcMismatch? && Find(d, id).None?
  {
    hide Crc32, DecodeHeader, Admit, SelectSlot, MessageBits;
    WindowIsBurst(original, received, k);
    BurstPayloadRefused(m, id, offset, hdr, pay, original, received, 8 * k);
  }

  // ---- Least recent use ----

  /** `x` was used more recently than `y`. */
  ghost predicate Before(r: seq<Id>, x: Id, y: Id) {
    exists p, q :: 0 <= p < q < |r| && r[p] == x && r[q] == y
  }

  /** Generations order the resident modules by recency of use. */
  ghost predicate Timely(m: Manager, r: seq<Id>) {
    && Distinct(r)
    && (forall i :: 0 <= i < |m.slots| && m.slots[i].resident.Some? ==> m.slots[i].resident.value as Id in r)
    && (forall i, j :: 0 <= i < |m.slots| && 0 <= j < |m.slots| && i != j
                       && m.slots[i].resident.Some? && m.slots[j].resident.Some?
                       && m.slots[i].generation > m.slots[j].generation ==>
          Before(r, m.slots[i].resident.value, m.slots[j].resident.value))
  }

  lemma BeforeTouched(r: seq<Id>, x: Id, y: Id)
    requires y in r && y != x
    ensures Before(Touch(r, x), x, y)
  {
    WithoutElements(r, x);
    var w := Without(r, x);
    var q :| 0 <= q < |w| && w[q] == y;
    assert Touch(r, x)[0] == x && Touch(r, x)[q + 1] == y;
  }

  lemma BeforeKept(r: seq<Id>, x: Id, y: Id, z: Id)
    requires Distinct(r) && Before(r, y, z) && y != x && z != x
    ensures Before(Touch(r, x), y, z)
  {
    hide Touch;
    var p, q :| 0 <= p < q < |r| && r[p] == y && r[q] == z;
    var t := Touch(r, x);
    var i := TouchShifts(r, x);
    var p', q' := if p < i then p + 1 else p, if q < i then q + 1 else q;
    assert t[p'] == y && t[q'] == z;
  }

  /** Touching `x` moves the elements before its old place, `i`, up by one. */
  lemma TouchShifts(r: seq<Id>, x: Id) returns (i: nat)
    requires Distinct(r)
    ensures i <= |r| && (i < |r| ==> r[i] == x) && |Touch(r, x)| == if i < |r| then |r| else |r| + 1
    ensures forall p :: 0 <= p < i ==> Touch(r, x)[p + 1] == r[p]
    ensures forall p :: i < p < |r| ==> Touch(r, x)[p] == r[p]
  {
    if x in r {
      i :| 0 <= i < |r| && r[i] == x;
      WithoutAt(r, i);
    } else {
      i := |r|;
      WithoutAbsent(r, x);
    }
  }

  /** Stamping slot `i` for module `id` with the newest generation is touching `id`. */
  lemma StampTimely(m: Manager, d: Manager, r: seq<Id>, i: nat, id: u32)
    requires Timely(m, r) && Stamped(m) && i < |m.slots| == |d.slots|
    requires forall j :: 0 <= j < |m.slots| && j != i ==> d.slots[j] == m.slots[j] && m.slots[j].resident != Some(id)
    requires d.slots[i].resident == Some(id) && d.slots[i].generation > m.counter
    ensures Timely(d, Touch(r, id))
  {
    hide Before;
    TouchDistinct(r, id);
    var t := Touch(r, id);
    forall j | 0 <= j < |d.slots| && d.slots[j].resident.Some? ensures d.slots[j].resident.value as Id in t {
      assert d.slots[j].resident.value as Id in Elements(t);
    }
    forall a, b | 0 <= a < |d.slots| && 0 <= b < |d.slots| && a != b
                  && d.slots[a].resident.Some? && d.slots[b].resident.Some?
                  && d.slots[a].generation > d.slots[b].generation
      ensures Before(t, d.slots[a].resident.value, d.slots[b].resident.value)
    {
      if a == i {
        BeforeTouched(r, id, d.slots[b].resident.value);
      } else if b != i {
        BeforeKept(r, id, m.slots[a].resident.value, m.slots[b].resident.value);
      }
    }
  }

  /** Dropping residents or changing pins leaves the order of the rest. */
  lemma ShrinkTimely(m: Manager, d: Manager, r: seq<Id>)
    requires Timely(m, r) && |d.slots| == |m.slots|
    requires forall j :: 0 <= j < |m.slots| && d.slots[j].resident.Some? ==>
               d.slots[j].resident == m.slots[j].resident && d.slots[j].generation == m.slots[j].generation
    ensures Timely(d, r)
  {
    hide Before;
  }

  lemma EnsureTimely(m: Manager, r: seq<Id>, id: u32, offset: u32, hdr: Reader, pay: Reader)
    requires Good(m) && Room(m, 1) && Timely(m, r) && ValidReader(hdr) && ValidReader(pay)
    ensures var (d, res) := EnsureResident(m, id, offset, hdr, pay);
            Timely(d, if res.Ok? then Touch(r, id) else r) && m.counter <= d.counter <= m.counter + 1
  {
    hide Crc32, DecodeHeader, SelectSlot, Timely, Touch;
    var (d, res) := EnsureResident(m, id, offset, hdr, pay);
    if res.Ok? {
      OthersHoldOthers(m, id, res.value);
      StampTimely(m, d, r, res.value, id);
    } else {
      ShrinkTimely(m, d, r);
    }
  }

  lemma OthersHoldOthers(m: Manager, id: u32, i: nat)
    requires Unique(m) && i < |m.slots|
    requires Find(m, id) == Some(i) || Find(m, id).None?
    ensures forall j :: 0 <= j < |m.slots| && j != i ==> m.slots[j].resident != Some(id)
  {
    assert forall j :: 0 <= j < |m.slots| && IsResident(m.slots[j], id) ==> m.slots[j].resident == Some(id);
    forall j | 0 <= j < |m.slots| && j != i ensures m.slots[j].resident != Some(id) {
      if Find(m, id).None? {
        assert !IsResident(m.slots[j], id);
      }
    }
  }

  /**
   * The slot a load goes into is empty and unpinned, the first such; or, when there is none, it holds
   * the least recently used of all modules in unpinned slots.
   */
  lemma VictimIsLeastRecent(m: Manager, r: seq<Id>, v: nat)
    requires Good(m) && Room(m, 0) && Timely(m, r) && SelectSlot(m.slots) == Some(v)
    ensures v < |m.slots| && !m.slots[v].pinned
    ensures m.slots[v].resident.None? ==> forall j :: 0 <= j < v ==> !EmptyUnpinned(m.slots[j])
    ensures m.slots[v].resident.Some? ==>
              forall j :: 0 <= j < |m.slots| && j != v && !m.slots[j].pinned ==>
                m.slots[j].resident.Some? && Before(r, m.slots[j].resident.value, m.slots[v].resident.value)
  {
    hide Before, SelectSlot, CacheAgrees;
    Selection(m.slots);
  }

  /**
   * Selection fails exactly when every slot is pinned, while the counter has room; without room also
   * when the only slot not pinned holds the module of the counter's maximum.
   */
  lemma SelectionFailsIffAllPinned(m: Manager)
    requires Good(m)
    ensures SelectSlot(m.slots).None? <==>
            || (forall j :: 0 <= j < |m.slots| ==> m.slots[j].pinned)
            || exists v :: OnlyNewest(m, v)
    ensures Room(m, 0) ==> forall v :: !OnlyNewest(m, v)
  {
    hide SelectSlot, CacheAgrees;
    Selection(m.slots);
    if v :| 0 <= v < |m.slots| && !m.slots[v].pinned && SelectSlot(m.slots).None? {
      assert OnlyNewest(m, v);
    }
  }

  /** Slot `v` alone is not pinned, and its module has the last generation there is. */
  ghost predicate OnlyNewest(m: Manager, v: nat) {
    && v < |m.slots| && m.slots[v].resident.Some? && m.slots[v].generation == U64 - 1
    && forall j :: 0 <= j < |m.slots| ==> (m.slots[j].pinned <==> j != v)
  }

  /**
   * What the counter must not reach: a use keeps generations distinct and at most the counter exactly if
   * the counter does not wrap or nothing else is resident.
   */
  lemma TouchStampedIff(m: Manager, i: nat)
    requires Stamped(m) && i < |m.slots| && m.slots[i].resident.Some?
    ensures Stamped(Touched(m, i)) <==>
            m.counter + 1 < U64 || forall j :: 0 <= j < |m.slots| && j != i ==> m.slots[j].resident.None?
  {
    var d := Touched(m, i);
    if m.counter + 1 == U64 && Stamped(d) {
      forall j | 0 <= j < |m.slots| && j != i ensures m.slots[j].resident.None? {
        if m.slots[j].resident.Some? {
          StampsDiffer(d, i, j);
        }
      }
    }
  }

  lemma StampsDiffer(m: Manager, i: nat, j: nat)
    requires Stamped(m) && i < |m.slots| && j < |m.slots| && i != j
    requires m.slots[i].resident.Some? && m.slots[j].resident.Some?
    ensures m.slots[i].generation != m.slots[j].generation
    ensures m.slots[i].generation <= m.counter && m.slots[j].generation <= m.counter
  {
  }

  // ---- Runs ----

  datatype Op =
    | Ensure(id: u32, offset: u32, hdr: Reader, pay: Reader)
    | Evict(id: u32)
    | Pin(slot: nat)
    | Unpin(slot: nat)
    | CacheFill(slot: nat, at: nat)

  ghost predicate Admissible(op: Op) {
    op.Ensure? ==> Fair(op.hdr, op.pay)
  }

  ghost function Apply(m: Manager, op: Op): (d: Manager)
    requires Shaped(m) && Admissible(op)
    ensures Shaped(d) && |d.slots| == |m.slots|
  {
    match op
    case Ensure(id, offset, hdr, pay) =>
      EnsureResident(m, id, offset, hdr, pay).0
    case Evict(id) => EvictModule(m, id).0
    case Pin(i) => SetPin(m, i, true).0
    case Unpin(i) => SetPin(m, i, false).0
    case CacheFill(i, a) => if i < |m.rams| && a < |m.rams[i]| then FillLine(m, i, a) else m
  }

  /** Modules in order of most recent successful use. */
  ghost function ApplyRecent(m: Manager, r: seq<Id>, op: Op): seq<Id>
    requires Shaped(m) && Admissible(op)
  {
    if op.Ensure? && EnsureResident(m, op.id, op.offset, op.hdr, op.pay).1.Ok? then Touch(r, op.id) else r
  }

  ghost predicate AllAdmissible(ops: seq<Op>) {
    forall k :: 0 <= k < |ops| ==> Admissible(ops[k])
  }

  ghost function Run(m: Manager, ops: seq<Op>): (d: Manager)
    requires Shaped(m) && AllAdmissible(ops)
    ensures Shaped(d) && |d.slots| == |m.slots|
  {
    if ops == [] then m else Apply(Run(m, ops[..|ops| - 1]), ops[|ops| - 1])
  }

  ghost function RunRecent(m: Manager, ops: seq<Op>): seq<Id>
    requires Shaped(m) && AllAdmissible(ops)
  {
    if ops == [] then []
    else
      var before := ops[..|ops| - 1];
      ApplyRecent(Run(m, before), RunRecent(m, before), ops[|ops| - 1])
  }

  /** What the last load into each slot was given. */
  ghost function ApplyRecords(m: Manager, recs: seq<Option<Record>>, op: Op): (r: seq<Option<Record>>)
    requires Shaped(m) && Admissible(op) && |recs| == |m.slots|
    ensures |r| == |recs|
  {
    if op.Ensure? then NextRecords(m, recs, op.id, op.offset, op.hdr, op.pay) else recs
  }

  ghost function RunRecords(m: Manager, ops: seq<Op>): (r: seq<Option<Record>>)
    requires Shaped(m) && AllAdmissible(ops)
    ensures |r| == |m.slots|
  {
    if ops == [] then seq(|m.slots|, _ => None)
    else
      var before := ops[..|ops| - 1];
      ApplyRecords(Run(m, before), RunRecords(m, before), ops[|ops| - 1])
  }

  /** Newly built slots of any number, sizes, addresses and RAM contents, over any instruction cache. */
  ghost predicate IsFresh(m: Manager) {
    && Shaped(m) && m.counter == 0
    && forall i :: 0 <= i < |m.slots| ==> m.slots[i].resident.None?
  }

  lemma ApplyGood(m: Manager, op: Op)
    requires Good(m) && Room(m, 1) && Admissible(op)
    ensures Good(Apply(m, op)) && Apply(m, op).counter <= m.counter + 1
  {
    hide Good, Crc32, DecodeHeader, FindFrom;
    assert Shaped(m) by { GoodShaped(m); }
    match op
    case Ensure(id, offset, hdr, pay) =>
      EnsureGood(m, id, offset, hdr, pay);
      CounterStep(m, id, offset, hdr, pay);
    case Evict(id) => EvictedGood(m, id);
    case Pin(i) => PinGood(m, i, true);
    case Unpin(i) => PinGood(m, i, false);
    case CacheFill(i, a) =>
      if i < |m.rams| && a < |m.rams[i]| { FillGood(m, i, a); }
  }

  lemma CounterStep(m: Manager, id: u32, offset: u32, hdr: Reader, pay: Reader)
    requires Shaped(m) && Room(m, 1) && ValidReader(hdr) && ValidReader(pay)
    ensures m.counter <= EnsureResident(m, id, offset, hdr, pay).0.counter <= m.counter + 1
  {
    hide Crc32, DecodeHeader, SelectSlot, FindFrom;
  }

  lemma ApplyTimely(m: Manager, r: seq<Id>, op: Op)
    requires Good(m) && Room(m, 1) && Timely(m, r) && Admissible(op)
    ensures Timely(Apply(m, op), ApplyRecent(m, r, op))
  {
    hide Good, Timely, Crc32, DecodeHeader;
    assert Shaped(m) by { GoodShaped(m); }
    if op.Ensure? {
      EnsureTimely(m, r, op.id, op.offset, op.hdr, op.pay);
    } else {
      ShrinkTimely(m, Apply(m, op), r);
    }
  }

  lemma ApplyBacked(m: Manager, recs: seq<Option<Record>>, op: Op)
    requires Shaped(m) && Backed(m, recs) && Admissible(op)
    ensures |recs| == |m.slots| && Backed(Apply(m, op), ApplyRecords(m, recs, op))
  {
    hide Backed, EnsureResident, NextRecords;
    BackedSizes(m, recs);
    if op.Ensure? {
      EnsureBacked(m, recs, op.id, op.offset, op.hdr, op.pay);
    } else {
      KeptBacked(m, Apply(m, op), recs);
    }
  }

  /**
   * Every run from fresh slots: unique residents with distinct generations, in every resident slot the
   * payload its own last load read under the header that load read, an instruction cache that agrees
   * with RAM, and generations that order modules by recency of use.
   */
  lemma {:induction false} RunGood(m: Manager, ops: seq<Op>)
    requires IsFresh(m) && AllAdmissible(ops) && |ops| < U64 - 2
    ensures Good(Run(m, ops)) && Timely(Run(m, ops), RunRecent(m, ops)) && Run(m, ops).counter <= |ops|
    ensures Backed(Run(m, ops), RunRecords(m, ops))
    decreases |ops|
  {
    hide Apply, ApplyRecent, ApplyRecords, Vouches;
    if ops != [] {
      hide Good, Backed, Timely;
      var before := ops[..|ops| - 1];
      RunGood(m, before);
      GoodShaped(Run(m, before));
      ApplyGood(Run(m, before), ops[|ops| - 1]);
      ApplyTimely(Run(m, before), RunRecent(m, before), ops[|ops| - 1]);
      ApplyBacked(Run(m, before), RunRecords(m, before), ops[|ops| - 1]);
    }
  }

  // ---- Which load a resident slot comes from ----

  /** The k-th operation loaded slot `i`, and storage answered `r` to its two reads. */
  ghost predicate LoadedAt(m: Manager, ops: seq<Op>, k: nat, i: nat, r: Record)
    requires Shaped(m) && AllAdmissible(ops)
  {
    && k < |ops| && ops[k].Ensure?
    && var (d, op) := (Run(m, ops[..k]), ops[k]);
       && LoadsNow(d, op.id, op.offset, op.hdr, op.pay)
       && LoadSlot(d, op.id, op.offset, op.hdr, op.pay) == i && LoadRecord(d, op.id, op.offset, op.hdr, op.pay) == r
  }

  /** Since its k-th operation the run has neither written slot `i` nor changed what it claims. */
  ghost predicate KeptSince(m: Manager, ops: seq<Op>, k: nat, i: nat)
    requires Shaped(m) && AllAdmissible(ops)
  {
    i < |m.slots| && forall j :: k < j <= |ops| ==> SameHolding(Run(m, ops[..j]), Run(m, ops), i)
  }

  ghost predicate SameHolding(m: Manager, d: Manager, i: nat) {
    && i < |m.slots| && i < |d.slots| && i < |m.rams| && i < |d.rams|
    && m.slots[i].resident == d.slots[i].resident && m.rams[i] == d.rams[i]
  }

  /** A slot that is resident after an operation that did not load it was so before, with the same RAM and record. */
  lemma NotLoadedIsKept(m: Manager, recs: seq<Option<Record>>, op: Op, i: nat)
    requires Shaped(m) && Admissible(op) && |recs| == |m.slots| && i < |m.slots|
    requires Apply(m, op).slots[i].resident.Some?
    requires op.Ensure? && LoadsNow(m, op.id, op.offset, op.hdr, op.pay) ==>
               LoadSlot(m, op.id, op.offset, op.hdr, op.pay) != i
    ensures SameHolding(m, Apply(m, op), i) && ApplyRecords(m, recs, op)[i] == recs[i]
  {
    hide Crc32, DecodeHeader, SelectSlot, FindFrom;
    if op.Ensure? && Find(m, op.id).None? {
      var h := op.hdr(op.offset, Zeros(HEADER_SIZE));
      if h.Done? && Admit(m, op.id, h.after).Ok? {
        var t := Admit(m, op.id, h.after).value;
        CleanOverwrite(m, t.slot, t.header.codeSize);
      }
    }
  }

  /** Every resident slot was loaded by some operation of the run, is recorded as that load's, and is as it left it. */
  lemma {:induction false} ResidentWasLoaded(m: Manager, ops: seq<Op>, i: nat) returns (k: nat)
    requires IsFresh(m) && AllAdmissible(ops) && i < |m.slots| && Run(m, ops).slots[i].resident.Some?
    ensures RunRecords(m, ops)[i].Some? && LoadedAt(m, ops, k, i, RunRecords(m, ops)[i].value)
            && KeptSince(m, ops, k, i)
    decreases |ops|
  {
    hide Apply, ApplyRecords, LoadsNow, LoadSlot, LoadRecord;
    var n := |ops| - 1;
    var d, recs, op := Run(m, ops[..n]), RunRecords(m, ops[..n]), ops[n];
    assert ops[..|ops|] == ops;
    if op.Ensure? && LoadsNow(d, op.id, op.offset, op.hdr, op.pay)
       && LoadSlot(d, op.id, op.offset, op.hdr, op.pay) == i {
      k := n;
      LoadIsRecorded(d, recs, op);
    } else {
      NotLoadedIsKept(d, recs, op, i);
      k := ResidentWasLoaded(m, ops[..n], i);
      assert ops[..n][..k] == ops[..k];
      forall j | k < j <= |ops| ensures SameHolding(Run(m, ops[..j]), Run(m, ops), i) {
        if j < |ops| {
          assert ops[..n][..j] == ops[..j];
          assert SameHolding(Run(m, ops[..n][..j]), d, i);
        }
      }
    }
  }

  lemma LoadIsRecorded(m: Manager, recs: seq<Option<Record>>, op: Op)
    requires Shaped(m) && Admissible(op) && |recs| == |m.slots|
    requires op.Ensure? && LoadsNow(m, op.id, op.offset, op.hdr, op.pay)
    ensures ApplyRecords(m, recs, op)[LoadSlot(m, op.id, op.offset, op.hdr, op.pay)]
            == Some(LoadRecord(m, op.id, op.offset, op.hdr, op.pay))
  {
    hide LoadsNow, LoadSlot, LoadRecord;
  }

  /** What a load's record says of the two reads. */
  lemma LoadWasAnswered(m: Manager, id: u32, offset: u32, hdr: Reader, pay: Reader)
    requires Shaped(m) && ValidReader(hdr) && ValidReader(pay) && LoadsNow(m, id, offset, hdr, pay)
    ensures var r, i := LoadRecord(m, id, offset, hdr, pay), LoadSlot(m, id, offset, hdr, pay);
            && hdr(offset, Zeros(HEADER_SIZE)) == Done(r.header) && DecodeHeader(r.header).Ok?
            && var h := DecodeHeader(r.header).value;
               && h.moduleId == id && h.codeSize <= m.slots[i].capacity
               && pay(WrapAdd(offset, HEADER_SIZE), m.rams[i][..h.codeSize]) == Done(r.code)
               && Crc32(r.code) == h.payloadCrc
  {
    hide Crc32, DecodeHeader, SelectSlot, FindFrom;
    var t := Admit(m, id, hdr(offset, Zeros(HEADER_SIZE)).after).value;
    var out := pay(WrapAdd(offset, HEADER_SIZE), m.rams[t.slot][..t.header.codeSize]);
    assert Overwrite(m, t.slot, out.after).rams[t.slot][..t.header.codeSize] == out.after;
  }

  /**
   * What a typed call runs, in every reachable state. Some operation of the run, the k-th, asked for
   * this module; storage answered its header read with a valid header of it and its payload read with
   * bytes of that header's checksum; the slot has not been written since; and a fetch inside the
   * payload returns the payload's byte.
   */
  lemma CallRunsVerifiedCode(m: Manager, ops: seq<Op>, i: nat, id: u32) returns (k: nat, r: Record)
    requires IsFresh(m) && AllAdmissible(ops) && |ops| < U64 - 2
    requires CheckCall(Run(m, ops), i, id).Ok?
    ensures k < |ops| && ops[k].Ensure? && ops[k].id == id && KeptSince(m, ops, k, i)
    ensures var (d, op) := (Run(m, ops[..k]), ops[k]);
            && op.hdr(op.offset, Zeros(HEADER_SIZE)) == Done(r.header) && DecodeHeader(r.header).Ok?
            && var h := DecodeHeader(r.header).value;
               && h.moduleId == id && i < |d.rams| && h.codeSize <= |d.rams[i]|
               && op.pay(WrapAdd(op.offset, HEADER_SIZE), d.rams[i][..h.codeSize]) == Done(r.code)
    ensures var (d, h) := (Run(m, ops), DecodeHeader(r.header).value);
            && |d.rams| == |d.slots| && |r.code| == h.codeSize <= |d.rams[i]| && Crc32(r.code) == h.payloadCrc
            && d.slots[i].entryOffset == h.entryOffset
            && (forall a :: 0 <= a < |d.rams[i]| ==> FetchByte(d, i, a) == d.rams[i][a])
            && (forall a :: 0 <= a < h.codeSize ==> FetchByte(d, i, a) == r.code[a])
  {
    hide Crc32, DecodeHeader, Run, LoadsNow, LoadSlot, LoadRecord;
    RunGood(m, ops);
    k := ResidentWasLoaded(m, ops, i);
    r := RunRecords(m, ops)[i].value;
    var (d, op) := (Run(m, ops[..k]), ops[k]);
    LoadWasAnswered(d, op.id, op.offset, op.hdr, op.pay);
    assert Vouches(r, Run(m, ops).slots[i], Run(m, ops).rams[i]);
  }

  // ---- Where execution starts ----

  lemma {:induction false} RunBranchable(m: Manager, ops: seq<Op>)
    requires IsFresh(m) && AllAdmissible(ops)
    ensures Branchable(Run(m, ops))
    decreases |ops|
  {
    hide EnsureResident;
    if ops != [] {
      var before := ops[..|ops| - 1];
      RunBranchable(m, before);
      var d, op := Run(m, before), ops[|ops| - 1];
      if op.Ensure? {
        EnsureBranchable(d, op.id, op.offset, op.hdr, op.pay);
      }
    }
  }

  /**
   * A call of any module that any run has left resident is entered in Thumb state, from an even address:
   * the processor is given the address of its entry point plus one.
   */
  lemma CallEntersThumb(m: Manager, ops: seq<Op>, i: nat, id: u32, entry: nat)
    requires IsFresh(m) && AllAdmissible(ops) && i < |m.slots| && Run(m, ops).slots[i].resident == Some(id)
    requires EntersAt(Run(m, ops).slots[i].execAddr, Run(m, ops).slots[i].entryOffset, entry)
    ensures var s := Run(m, ops).slots[i];
            && s.execAddr % 4 == 0 && s.entryOffset % 2 == 0
            && entry == (s.execAddr + s.entryOffset) % 0x1_0000_0000 + 1 && entry % 2 == 1
    ensures ThumbEntry(BranchTarget(Run(m, ops).slots[i])) == entry
  {
    hide Run, EntersAt;
    RunBranchable(m, ops);
    var s := Run(m, ops).slots[i];
    AlignedEntry(s.execAddr, s.entryOffset, entry);
  }

  /** A branch lands among the slot's first `n` bytes exactly when the entry offset is below `n`. */
  lemma EntryWithinIff(s: Slot, n: nat)
    requires s.execAddr + n <= U32
    ensures s.execAddr <= BranchTarget(s) < s.execAddr + n <==> s.entryOffset < n
  {
  }

  /**
   * A call starts inside the payload that was read and checked if and only if the accepted header's
   * entry offset is below its code size, and then with the payload's byte at that offset.
   */
  lemma CallStartsInPayloadIff(m: Manager, ops: seq<Op>, i: nat, id: u32) returns (k: nat, r: Record)
    requires IsFresh(m) && AllAdmissible(ops) && |ops| < U64 - 2
    requires CheckCall(Run(m, ops), i, id).Ok?
    requires Run(m, ops).slots[i].execAddr + Run(m, ops).slots[i].capacity <= U32
    ensures k < |ops| && ops[k].Ensure? && ops[k].id == id && KeptSince(m, ops, k, i)
    ensures var (d, op) := (Run(m, ops[..k]), ops[k]);
            && op.hdr(op.offset, Zeros(HEADER_SIZE)) == Done(r.header) && DecodeHeader(r.header).Ok?
            && var h := DecodeHeader(r.header).value;
               && h.moduleId == id && i < |d.rams| && h.codeSize <= |d.rams[i]|
               && op.pay(WrapAdd(op.offset, HEADER_SIZE), d.rams[i][..h.codeSize]) == Done(r.code)
    ensures var (d, h) := (Run(m, ops), DecodeHeader(r.header).value);
            var (first, start) := (d.slots[i].execAddr, BranchTarget(d.slots[i]));
            && |d.rams| == |d.slots| && |r.code| == h.codeSize <= |d.rams[i]| && Crc32(r.code) == h.payloadCrc
            && (first <= start < first + h.codeSize <==> h.entryOffset < h.codeSize)
            && (h.entryOffset < h.codeSize ==> FetchByte(d, i, start - first) == r.code[h.entryOffset])
  {
    hide Crc32, DecodeHeader, Run, KeptSince;
    k, r := CallRunsVerifiedCode(m, ops, i, id);
    EntryWithinIff(Run(m, ops).slots[i], |r.code|);
  }

  // ---- Pins ----

  /** Operations that may change what pinned slot `i` holds. */
  ghost predicate Disturbs(m: Manager, op: Op, i: nat) {
    (op.Unpin? && op.slot == i) || (op.Evict? && i < |m.slots| && m.slots[i].resident == Some(op.id))
  }

  lemma PinnedKept(m: Manager, op: Op, i: nat)
    requires Shaped(m) && Admissible(op) && i < |m.slots| && m.slots[i].pinned && !Disturbs(m, op, i)
    ensures Kept(m, Apply(m, op), i)
  {
    hide Crc32, DecodeHeader, SelectSlot;
    Selection(m.slots);
    if op.Ensure? {
      EnsureKeeps(m, op.id, op.offset, op.hdr, op.pay, i);
    } else if op.Evict? && Find(m, op.id).Some? {
      assert IsResident(m.slots[Find(m, op.id).value], op.id);
    }
  }

  /** A pinned slot keeps its module, entry offset and RAM through any run that neither unpins nor evicts it. */
  lemma {:induction false} PinnedThroughRun(m: Manager, ops: seq<Op>, i: nat)
    requires Shaped(m) && AllAdmissible(ops) && i < |m.slots| && m.slots[i].pinned
    requires forall k :: 0 <= k < |ops| ==> !Disturbs(m, ops[k], i)
    ensures Kept(m, Run(m, ops), i)
    decreases |ops|
  {
    hide Apply;
    if ops != [] {
      var before := ops[..|ops| - 1];
      PinnedThroughRun(m, before, i);
      PinnedKept(Run(m, before), ops[|ops| - 1], i);
    }
  }

  // ---- Why failed reads must leave the buffer alone ----

  /** After a payload read that fails part-way the slots are as before, over what the read left in RAM. */
  lemma TornReadLeavesGarbage(m: Manager, id: u32, offset: u32, hdr: Reader, pay: Reader, torn: seq<byte>)
    requires Shaped(m) && ValidReader(hdr) && ValidReader(pay) && Find(m, id).None?
    requires var h := hdr(offset, Zeros(HEADER_SIZE));
             && h.Done? && Admit(m, id, h.after).Ok?
             && var t := Admit(m, id, h.after).value;
                && pay(WrapAdd(offset, HEADER_SIZE), m.rams[t.slot][..t.header.codeSize]) == Fault(torn)
    ensures var t := Admit(m, id, hdr(offset, Zeros(HEADER_SIZE)).after).value;
            var d := EnsureResident(m, id, offset, hdr, pay).0;
            && d.slots == m.slots
            && d.rams[t.slot] == torn + m.rams[t.slot][t.header.codeSize..]
            && (d == m <==> torn == m.rams[t.slot][..t.header.codeSize])
  {
    hide Crc32, DecodeHeader, Admit, FindFrom;
    var t := Admit(m, id, hdr(offset, Zeros(HEADER_SIZE)).after).value;
    var d := EnsureResident(m, id, offset, hdr, pay).0;
    var n := t.header.codeSize;
    assert |torn| == n;
    if torn == m.rams[t.slot][..n] {
      CleanOverwrite(m, t.slot, n);
    } else {
      assert d.rams[t.slot][..n] == torn;
    }
  }

  /**
   * Such a read breaks the backing of the victim: it survives if and only if the victim was empty or
   * the bytes left behind happen to be those of the payload it still claims.
   */
  lemma TornReadBreaksBacking(m: Manager, recs: seq<Option<Record>>, id: u32, offset: u32, hdr: Reader, pay: Reader,
                              torn: seq<byte>)
    requires Shaped(m) && Backed(m, recs) && ValidReader(hdr) && ValidReader(pay) && Find(m, id).None?
    requires var h := hdr(offset, Zeros(HEADER_SIZE));
             && h.Done? && Admit(m, id, h.after).Ok?
             && var t := Admit(m, id, h.after).value;
                && pay(WrapAdd(offset, HEADER_SIZE), m.rams[t.slot][..t.header.codeSize]) == Fault(torn)
    ensures var v := Admit(m, id, hdr(offset, Zeros(HEADER_SIZE)).after).value.slot;
            && NextRecords(m, recs, id, offset, hdr, pay) == recs
            && (Backed(EnsureResident(m, id, offset, hdr, pay).0, recs) <==>
                m.slots[v].resident.None?
                || forall a :: 0 <= a < |torn| && a < |recs[v].value.code| ==> torn[a] == recs[v].value.code[a])
  {
    hide Crc32, DecodeHeader, Admit, FindFrom;
    var t := Admit(m, id, hdr(offset, Zeros(HEADER_SIZE)).after).value;
    var d, v := EnsureResident(m, id, offset, hdr, pay).0, t.slot;
    TornReadLeavesGarbage(m, id, offset, hdr, pay, torn);
    assert forall j :: 0 <= j < |d.slots| && j != v ==> d.rams[j] == m.rams[j];
    if m.slots[v].resident.Some? {
      var code := recs[v].value.code;
      assert code <= m.rams[v];
      assert forall a :: 0 <= a < |code| ==> d.rams[v][a] == if a < |torn| then torn[a] else code[a];
      assert Vouches(recs[v].value, d.slots[v], d.rams[v]) <==> code <= d.rams[v];
    }
  }

  /**
   * Putting the old bytes back is not enough: a fetch while the new ones are there leaves a stale
   * line of a module that is resident throughout, and no hook call follows a failed load.
   */
  lemma RestoringLeavesStaleLine(m: Manager, i: nat, arrived: byte)
    requires Shaped(m) && i < |m.slots| && m.slots[i].resident.Some? && |m.rams[i]| > 0
    requires (i, 0) !in m.icache && arrived != m.rams[i][0]
    ensures var fetched := FillLine(Overwrite(m, i, [arrived]), i, 0);
            var restored := fetched.(rams := m.rams);
            && !CacheAgrees(restored) && FetchByte(restored, i, 0) == arrived != restored.rams[i][0]
  {
    var restored := FillLine(Overwrite(m, i, [arrived]), i, 0).(rams := m.rams);
    assert (i, 0) in restored.icache && restored.icache[(i, 0)] == arrived;
  }
}
