/** Reads from storage as the layers above see them, and the simulated NOR flash. */
module Storage {
  import opened Bytes

  /** Outcome of filling a buffer: `after` is what the buffer holds then, whether or not the read failed. */
  datatype ReadOutcome = Done(after: seq<byte>) | Fault(after: seq<byte>)

  /** A storage driver at one moment: offset and old buffer to outcome. */
  type Reader = (nat, seq<byte>) -> ReadOutcome

  ghost predicate ValidReader(r: Reader) {
    forall o, buf :: |r(o, buf).after| == |buf|
  }

  /** A failed read leaves the buffer unchanged. */
  ghost predicate CleanFaults(r: Reader) {
    forall o, buf :: r(o, buf).Fault? ==> r(o, buf).after == buf
  }

  /** A flash image that fails out of bounds, before any effect. */
  function FlashRead(flash: seq<byte>, o: nat, buf: seq<byte>): ReadOutcome {
    if o + |buf| <= |flash| then Done(flash[o..o + |buf|]) else Fault(buf)
  }

  function FlashReader(flash: seq<byte>): (r: Reader)
    ensures ValidReader(r) && CleanFaults(r)
  {
    (o: nat, buf: seq<byte>) => FlashRead(flash, o, buf)
  }

  /** Reads into the first `len` bytes of `buf`. */
  method ReadInto(r: Reader, offset: nat, buf: array<byte>, len: nat) returns (ok: bool)
    requires ValidReader(r) && len <= buf.Length
    modifies buf
    ensures buf[..] == r(offset, old(buf[..len])).after + old(buf[len..])
    ensures ok == r(offset, old(buf[..len])).Done?
  {
    var outcome := r(offset, buf[..len]);
    for k := 0 to len
      invariant buf[..k] == outcome.after[..k] && buf[len..] == old(buf[len..])
    {
      buf[k] := outcome.after[k];
    }
    ok := outcome.Done?;
  }

  datatype FlashError = OutOfBounds | NotAligned

  datatype FlashResult = FlashOk | FlashErr(error: FlashError)

  /** NOR programming clears bits and never sets them. */
  function AndBytes(old_: seq<byte>, new_: seq<byte>): (r: seq<byte>)
    requires |old_| == |new_|
    ensures |r| == |old_|
  {
    seq(|old_|, i requires 0 <= i < |old_| => old_[i] & new_[i])
  }

  function Erased(n: nat): (r: seq<byte>)
    ensures |r| == n
  {
    seq(n, _ => 0xFF)
  }

  /** Simulated NOR flash: bounds are checked before any effect. */
  class MockFlash {
    const data: array<byte>
    const eraseSize: nat

    constructor (capacity: nat, eraseSize: nat)
      requires eraseSize > 0
      ensures data.Length == capacity && this.eraseSize == eraseSize
      ensures fresh(data) && data[..] == Erased(capacity)
    {
      data := new byte[capacity](_ => 0xFF);
      this.eraseSize := eraseSize;
      new;
      assert data[..] == Erased(capacity);
    }

    method Read(offset: u32, bytes: array<byte>) returns (r: FlashResult)
      requires bytes != data
      modifies bytes
      ensures bytes[..] == FlashRead(data[..], offset, old(bytes[..])).after
      ensures r == (if FlashRead(data[..], offset, old(bytes[..])).Done? then FlashOk else FlashErr(OutOfBounds))
    {
      if offset + bytes.Length > data.Length {
        return FlashErr(OutOfBounds);
      }
      for k := 0 to bytes.Length
        invariant data[..] == old(data[..])
        invariant bytes[..k] == data[offset..offset + k]
      {
        bytes[k] := data[offset + k];
      }
      assert bytes[..] == bytes[..bytes.Length];
      return FlashOk;
    }

    method Erase(from: u32, to: u32) returns (r: FlashResult)
      requires eraseSize > 0
      modifies data
      ensures r == if to > data.Length || from > to then FlashErr(OutOfBounds)
                   else if from % eraseSize != 0 || to % eraseSize != 0 then FlashErr(NotAligned)
                   else FlashOk
      ensures r.FlashErr? ==> data[..] == old(data[..])
      ensures r.FlashOk? ==> data[..] == old(data[..from]) + Erased(to - from) + old(data[to..])
    {
      if to > data.Length || from > to {
        return FlashErr(OutOfBounds);
      }
      if from % eraseSize != 0 || to % eraseSize != 0 {
        return FlashErr(NotAligned);
      }
      for k := from to to
        invariant data[..from] == old(data[..from]) && data[to..] == old(data[to..])
        invariant forall j :: from <= j < k ==> data[j] == 0xFF
      {
        data[k] := 0xFF;
      }
      assert data[from..to] == Erased(to - from);
      assert data[..] == data[..from] + data[from..to] + data[to..];
      return FlashOk;
    }

    method Write(offset: u32, bytes: seq<byte>) returns (r: FlashResult)
      modifies data
      ensures r == if offset + |bytes| > data.Length then FlashErr(OutOfBounds) else FlashOk
      ensures r.FlashErr? ==> data[..] == old(data[..])
      ensures r.FlashOk? ==>
        data[..] == old(data[..offset]) + AndBytes(old(data[offset..offset + |bytes|]), bytes)
                    + old(data[offset + |bytes|..])
    {
      if offset + |bytes| > data.Length {
        return FlashErr(OutOfBounds);
      }
      ghost var was := data[..];
      ghost var end := offset + |bytes|;
      for k := 0 to |bytes|
        invariant data[..offset] == was[..offset] && data[offset + k..] == was[offset + k..]
        invariant forall j :: 0 <= j < k ==> data[offset + j] == was[offset + j] & bytes[j]
      {
        data[offset + k] := data[offset + k] & bytes[k];
      }
      assert data[offset..end] == AndBytes(was[offset..end], bytes);
      assert data[..] == data[..offset] + data[offset..end] + data[end..];
      return FlashOk;
    }
  }
}
