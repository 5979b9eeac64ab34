/** What the overlay manager answers: exactly when a load fails and why, and what the small operations report. */
module LoadAnswers {
  import opened Bytes
  import opened Crc
  import opened CrcTheory
  import opened Header
  import opened Decoders
  import opened Storage
  import opened Overlay

  ghost predicate Resident(m: Manager, id: u32) {
    exists i :: 0 <= i < |m.slots| && m.slots[i].resident == Some(id)
  }

  lemma FindAnswer(m: Manager, id: u32)
    ensures Find(m, id).Some? <==> Resident(m, id)
    ensures Find(m, id).Some? ==> m.slots[Find(m, id).value].resident == Some(id)
  {
    if i :| 0 <= i < |m.slots| && m.slots[i].resident == Some(id) {
      assert IsResident(m.slots[i], id);
    }
  }

  // ---- A load that finds its module ----

  /** A request for a resident module succeeds with its slot, reads nothing, and only renews its generation. */
  lemma HitAnswer(m: Manager, id: u32, offset: u32, hdr: Reader, pay: Reader)
    requires Shaped(m) && ValidReader(hdr) && ValidReader(pay) && Resident(m, id)
    ensures var (d, r) := EnsureResident(m, id, offset, hdr, pay);
            && r.Ok? && r.value < |m.slots| && m.slots[r.value].resident == Some(id)
            && d.counter == (m.counter + 1) % 0x1_0000_0000_0000_0000
            && d.rams == m.rams && d.icache == m.icache && d.hooks == m.hooks
            && d.slots == m.slots[r.value := m.slots[r.value].(generation := d.counter)]
  {
    hide FindFrom;
    FindAnswer(m, id);
  }

  // ---- A load that does not ----

  /** The header read was answered with a valid header. */
  ghost predicate GoodHeader(out: ReadOutcome) {
    out.Done? && |out.after| == 32 && OverlayMark(out.after) && VersionOne(out.after) && Crc32(out.after) == SEALED
  }

  /** Slot `v` can take what the header `b` announces. */
  ghost predicate Suits(m: Manager, b: seq<byte>, v: Option<nat>) {
    && |b| == 32 && v.Some? && v.value < |m.slots| && Word(b, 12) <= m.slots[v.value].capacity
    && m.slots[v.value].execAddr % 4 == 0 && Word(b, 16) % 2 == 0
  }

  /** The payload read of a load that gets that far: behind the header, over what the slot holds. */
  ghost function PayloadRead(m: Manager, offset: u32, b: seq<byte>, v: Option<nat>, pay: Reader): ReadOutcome
    requires Shaped(m) && Suits(m, b, v)
  {
    pay((offset + 32) % 0x1_0000_0000, m.rams[v.value][..Word(b, 12)])
  }

  /** Before the payload read: why a load is refused there, in the order of the tests. */
  lemma HeaderRefusals(m: Manager, id: u32, offset: u32, hdr: Reader, pay: Reader)
    requires Shaped(m) && ValidReader(hdr) && ValidReader(pay) && !Resident(m, id)
    ensures var (out, v) := (hdr(offset, Zeros(32)), SelectSlot(m.slots));
            var (b, (d, r)) := (out.after, EnsureResident(m, id, offset, hdr, pay));
            && |b| == 32
            && (out.Fault? ==> r == Err(OverlayError.Storage))
            && (out.Done? && !OverlayMark(b) ==> r == Err(InvalidMagic))
            && (out.Done? && OverlayMark(b) && !VersionOne(b) ==> r == Err(UnsupportedVersion))
            && (out.Done? && OverlayMark(b) && VersionOne(b) && Crc32(b) != SEALED ==> r == Err(HeaderChecksumMismatch))
            && (GoodHeader(out) && Word(b, 8) != id ==> r == Err(ModuleNotFound(id)))
            && (GoodHeader(out) && Word(b, 8) == id && v.None? ==> r == Err(InvalidSlotIndex))
            && (GoodHeader(out) && Word(b, 8) == id && v.Some? && v.value < |m.slots| ==>
                  var s := m.slots[v.value];
                  && (Word(b, 12) > s.capacity ==> r == Err(SlotTooSmall(Word(b, 12), s.capacity)))
                  && (Word(b, 12) <= s.capacity && !Suits(m, b, v) ==> r == Err(InvalidAlignment)))
            && (!(GoodHeader(out) && Word(b, 8) == id && Suits(m, b, v)) ==> r.Err? && d == m)
  {
    hide DecodeHeader, SelectSlot, FindFrom, OverlayMark, VersionOne, Crc32, Word, Half, LoadAdmitted;
    FindAnswer(m, id);
    HeaderAnswer(hdr(offset, Zeros(32)).after);
    Selection(m.slots);
  }

  /** From the payload read on: refused exactly on a failed read or a checksum that does not fit. */
  lemma PayloadAnswer(m: Manager, id: u32, offset: u32, hdr: Reader, pay: Reader)
    requires Shaped(m) && ValidReader(hdr) && ValidReader(pay) && !Resident(m, id)
    requires var (out, v) := (hdr(offset, Zeros(32)), SelectSlot(m.slots));
             GoodHeader(out) && Word(out.after, 8) == id && Suits(m, out.after, v)
    ensures var (b, v) := (hdr(offset, Zeros(32)).after, SelectSlot(m.slots));
            var (got, r) := (PayloadRead(m, offset, b, v, pay), EnsureResident(m, id, offset, hdr, pay).1);
            && (r == Err(OverlayError.Storage) <==> got.Fault?)
            && (r == Ok(v.value) <==> got.Done? && LeBits32(Crc32(got.after)) == b[24..28])
            && (got.Done? && LeBits32(Crc32(got.after)) != b[24..28] ==>
                  && r.Err? && r.error.PayloadCrcMismatch?
                  && LeBits32(r.error.expected) == b[24..28] && r.error.calculated == Crc32(got.after))
  {
    hide DecodeHeader, SelectSlot, FindFrom, OverlayMark, VersionOne, Crc32, Word, Half, LeBits32;
    FindAnswer(m, id);
    var b, v := hdr(offset, Zeros(32)).after, SelectSlot(m.slots);
    HeaderAnswer(b);
    var h := DecodeHeader(b).value;
    var got := PayloadRead(m, offset, b, v, pay);
    assert Overwrite(m, v.value, got.after).rams[v.value][..h.codeSize] == got.after;
    if got.Done? {
      SameWord(Crc32(got.after), h.payloadCrc);
    }
  }

  lemma SameWord(x: bv32, y: bv32)
    ensures LeBits32(x) == LeBits32(y) <==> x == y
  {
    hide LeBits32, FromLeBits32;
    LeBits32RoundTrip(x); LeBits32RoundTrip(y);
  }

  // ---- Calls, eviction and pins ----

  /** A call is let through exactly if its slot exists and holds the module, and is otherwise refused by cause. */
  lemma CallAnswer(m: Manager, i: nat, id: u32)
    ensures CheckCall(m, i, id)
            == if i >= |m.slots| then Err(InvalidSlotIndex)
               else if m.slots[i].resident == Some(id) then Ok(())
               else Err(ModuleNotFound(id))
  {
  }


  /** Eviction reports whether the module was resident, and empties one slot that held it, or nothing. */
  lemma EvictAnswer(m: Manager, id: u32)
    ensures var (d, evicted) := EvictModule(m, id);
            && (evicted <==> Resident(m, id))
            && (evicted ==> exists i :: 0 <= i < |m.slots| && m.slots[i].resident == Some(id)
                              && d == m.(slots := m.slots[i := m.slots[i].(resident := None, entryOffset := 0)]))
            && (!evicted ==> d == m)
  {
    hide FindFrom;
    FindAnswer(m, id);
  }

  /** Pinning and unpinning fail exactly on an index no slot has, and change one pin and nothing else. */
  lemma PinAnswer(m: Manager, i: nat, pinned: bool)
    ensures var (d, r) := SetPin(m, i, pinned);
            && (r == Ok(()) <==> i < |m.slots|) && (r == Err(InvalidSlotIndex) <==> i >= |m.slots|)
            && (i >= |m.slots| ==> d == m)
            && (i < |m.slots| ==> |d.slots| == |m.slots| && d == m.(slots := d.slots) && d.slots[i].pinned == pinned)
            && forall j :: 0 <= j < |m.slots| && j < |d.slots| ==>
                 if j == i then d.slots[j] == m.slots[j].(pinned := d.slots[j].pinned) else d.slots[j] == m.slots[j]
  {
  }
}
