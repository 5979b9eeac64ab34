/** Byte-addressed access to a block device through one cached block. */
module Block {
  import opened Bytes

  /** The bytes of `data` with `src` written at `at`. */
  function Splice(data: seq<byte>, at: nat, src: seq<byte>): (r: seq<byte>)
    requires at + |src| <= |data|
    ensures |r| == |data|
  {
    data[..at] + src + data[at + |src|..]
  }

  lemma SpliceMore(data: seq<byte>, at: nat, src: seq<byte>, i: nat, j: nat)
    requires at + |src| <= |data| && i <= j <= |src|
    ensures Splice(Splice(data, at, src[..i]), at + i, src[i..j]) == Splice(data, at, src[..j])
  {
    assert src[..i] + src[i..j] == src[..j];
  }

  lemma SpliceNothing(data: seq<byte>, at: nat, src: seq<byte>)
    requires at <= |data|
    ensures Splice(data, at, src[..0]) == data
  {
  }

  lemma SpliceElsewhere(data: seq<byte>, at: nat, src: seq<byte>, lo: nat, hi: nat)
    requires at + |src| <= |data| && lo <= hi <= |data| && (hi <= at || at + |src| <= lo)
    ensures Splice(data, at, src)[lo..hi] == data[lo..hi]
  {
  }

  /** Copies `src` into `buf` at `at`. */
  method Store(buf: array<byte>, at: nat, src: seq<byte>)
    requires at + |src| <= buf.Length
    modifies buf
    ensures buf[..] == Splice(old(buf[..]), at, src)
  {
    CopyFromSlice(buf, at, src);
    assert buf[..] == buf[..at + |src|] + buf[at + |src|..];
  }

  // ---- Block arithmetic, for any block size ----

  lemma BlockOf(offset: nat, bs: nat)
    requires bs > 0
    ensures offset == (offset / bs) * bs + offset % bs && offset % bs < bs
  {
  }

  lemma BlockFits(offset: nat, bs: nat, blocks: nat)
    requires bs > 0 && offset < blocks * bs
    ensures (offset / bs) * bs + bs <= blocks * bs
  {
    BlockOf(offset, bs);
    if offset / bs >= blocks {
      MulMonotone(blocks, offset / bs, bs);
    }
    MulMonotone(offset / bs + 1, blocks, bs);
    assert (offset / bs + 1) * bs == (offset / bs) * bs + bs;
  }

  lemma MulMonotone(a: nat, b: nat, k: nat)
    ensures a <= b ==> a * k <= b * k
  {
  }

  /** Blocks before `b` end before it starts. */
  lemma BlockBefore(a: nat, b: nat, bs: nat)
    requires a < b
    ensures a * bs + bs <= b * bs
  {
    MulMonotone(a + 1, b, bs);
    assert (a + 1) * bs == a * bs + bs;
  }

  lemma AlignedStep(offset: nat, count: nat, bs: nat)
    requires bs > 0 && offset % bs == 0
    ensures (offset + count * bs) % bs == 0
    ensures (offset + count * bs) == (offset / bs + count) * bs
  {
    BlockOf(offset, bs);
    MultipleMod(offset / bs + count, bs);
  }

  lemma MultipleMod(q: nat, bs: nat)
    requires bs > 0
    ensures (q * bs) % bs == 0
  {
    BlockOf(q * bs, bs);
    var d := q * bs / bs;
    assert (q * bs) % bs == q * bs - d * bs;
    if d < q {
      BlockBefore(d, q, bs);
    } else if d > q {
      BlockBefore(q, d, bs);
    }
  }

  /** Filling a block from `offset` ends on a block boundary. */
  lemma FilledBlock(offset: nat, bs: nat)
    requires bs > 0
    ensures (offset + (bs - offset % bs)) % bs == 0
  {
    BlockOf(offset, bs);
    assert offset + (bs - offset % bs) == (offset / bs + 1) * bs;
    MultipleMod(offset / bs + 1, bs);
  }

  lemma WholeBlock(bs: nat)
    requires bs > 0
    ensures bs % bs == 0
  {
    MultipleMod(1, bs);
    assert 1 * bs == bs;
  }

  /** The whole blocks in `len` bytes: at least one, and no more than fit. */
  lemma WholeBlocksBounds(len: nat, bs: nat)
    requires 0 < bs <= len
    ensures 0 < len / bs * bs <= len && (len / bs * bs) % bs == 0
  {
    BlockOf(len, bs);
    MulMonotone(len / bs, 0, bs);
    MulMonotone(1, len / bs, bs);
    MultipleMod(len / bs, bs);
  }

  /** The whole blocks in `len` bytes from a block boundary on end on one. */
  lemma WholeBlocksFrom(offset: nat, len: nat, bs: nat)
    requires 0 < bs <= len && offset % bs == 0
    ensures offset / bs * bs == offset
    ensures var n := len / bs * bs; 0 < n <= len && n % bs == 0 && (offset + n) % bs == 0
  {
    BlockOf(offset, bs);
    WholeBlocksBounds(len, bs);
    AlignedStep(offset, len / bs, bs);
  }

  lemma TruncatedCapacity(capacity: nat)
    ensures capacity % U32 <= capacity
  {
  }

  lemma SpliceAll(old_: seq<byte>, new_: seq<byte>)
    requires |old_| == |new_|
    ensures Splice(old_, 0, new_) == new_
  {
  }

  /** A block outside a run of blocks does not overlap it. */
  lemma OutsideBlocks(b: nat, first: nat, count: nat, bs: nat)
    requires b < first || b >= first + count
    ensures b * bs + bs <= first * bs || first * bs + count * bs <= b * bs
  {
    if b < first {
      BlockBefore(b, first, bs);
    } else {
      MulMonotone(first + count, b, bs);
      assert (first + count) * bs == first * bs + count * bs;
    }
  }

  /** Writes to places apart can be done in either order. */
  lemma SplicesCommute(data: seq<byte>, a: nat, src: seq<byte>, b: nat, chunk: seq<byte>)
    requires a + |src| <= |data| && b + |chunk| <= |data| && (a + |src| <= b || b + |chunk| <= a)
    ensures Splice(Splice(data, a, src), b, chunk) == Splice(Splice(data, b, chunk), a, src)
  {
    var x, y := Splice(Splice(data, a, src), b, chunk), Splice(Splice(data, b, chunk), a, src);
    assert forall i :: 0 <= i < |data| ==> x[i] == y[i];
  }

  /** Whole blocks written leave a cached block outside them as it was. */
  lemma CachedApart(data: seq<byte>, first: nat, count: nat, chunk: seq<byte>, b: nat, copy: seq<byte>, bs: nat)
    requires |chunk| == count * bs && first * bs + |chunk| <= |data| && |copy| == bs && b * bs + bs <= |data|
    requires b < first || b >= first + count
    ensures Splice(Splice(data, first * bs, chunk), b * bs, copy)
            == Splice(Splice(data, b * bs, copy), first * bs, chunk)
  {
    OutsideBlocks(b, first, count, bs);
    SplicesCommute(data, first * bs, chunk, b * bs, copy);
  }

  /** Writing back a whole cached block changed in one place is writing that place of the data as cached. */
  lemma BlockRewritten(data: seq<byte>, at: nat, cached: seq<byte>, from: nat, chunk: seq<byte>)
    requires at + |cached| <= |data| && from + |chunk| <= |cached|
    ensures Splice(data, at, Splice(cached, from, chunk)) == Splice(Splice(data, at, cached), at + from, chunk)
  {
    var x, y := Splice(data, at, Splice(cached, from, chunk)), Splice(Splice(data, at, cached), at + from, chunk);
    assert forall i :: 0 <= i < |data| ==> x[i] == y[i];
  }

  lemma SpliceTwice(data: seq<byte>, at: nat, src: seq<byte>)
    requires at + |src| <= |data|
    ensures Splice(Splice(data, at, src), at, src) == Splice(data, at, src)
  {
  }

  /** Writing the next part of `src` over a mixture leaves a mixture. */
  lemma MixedSplice(d: seq<byte>, b: seq<byte>, view: seq<byte>, at: nat, src: seq<byte>, i: nat, j: nat)
    requires i <= j <= |src| && at + |src| <= |d| && Mixed(d, b, view, at, src)
    ensures Mixed(d, b, Splice(view, at + i, src[i..j]), at, src)
  {
    var r := Splice(view, at + i, src[i..j]);
    forall x | 0 <= x < |r|
      ensures r[x] == d[x] || r[x] == b[x] || (at <= x < at + |src| && r[x] == src[x - at])
    {
      if at + i <= x < at + j {
        assert r[x] == src[i..j][x - (at + i)];
      } else {
        assert r[x] == view[x];
      }
    }
  }

  /** `got` is what `d` or `b` holds from `start` on, byte by byte. */
  ghost predicate Either(got: seq<byte>, d: seq<byte>, b: seq<byte>, start: nat) {
    && start + |got| <= |d| == |b|
    && forall x :: 0 <= x < |got| ==> got[x] == d[start + x] || got[x] == b[start + x]
  }

  /** A request for the bytes from `start` on, served up to `pos`: from `d` or `b`, and the rest as it `was`. */
  ghost predicate Reading(dest: seq<byte>, was: seq<byte>, d: seq<byte>, b: seq<byte>, start: nat, pos: nat) {
    pos <= |dest| == |was| && Either(dest[..pos], d, b, start) && dest[pos..] == was[pos..]
  }

  lemma ReadingStarts(was: seq<byte>, d: seq<byte>, b: seq<byte>, start: nat)
    requires start <= |d| == |b|
    ensures Reading(was, was, d, b, start, 0)
  {
  }

  lemma ReadingSays(dest: seq<byte>, was: seq<byte>, d: seq<byte>, b: seq<byte>, start: nat, pos: nat)
    requires Reading(dest, was, d, b, start, pos)
    ensures start + pos <= |d| && pos <= |dest| == |was|
    ensures Either(dest[..pos], d, b, start) && dest[pos..] == was[pos..]
    ensures d == b ==> dest[..pos] == d[start..start + pos]
    ensures pos == |dest| ==> dest[..pos] == dest
  {
  }

  /** The next `count` bytes of such a request. */
  lemma ReadingGrows(before: seq<byte>, was: seq<byte>, d: seq<byte>, b: seq<byte>, view: seq<byte>,
                     start: nat, pos: nat, count: nat)
    requires (view == d || view == b) && pos + count <= |before| && start + pos + count <= |d| == |b|
    requires Reading(before, was, d, b, start, pos)
    ensures Reading(Splice(before, pos, view[start + pos..start + pos + count]), was, d, b, start, pos + count)
  {
    var part := view[start + pos..start + pos + count];
    var after := Splice(before, pos, part);
    assert after[..pos + count] == before[..pos] + part;
    assert after[pos + count..] == before[pos..][count..] == was[pos..][count..];
    forall x | 0 <= x < pos + count ensures after[x] == d[start + x] || after[x] == b[start + x] {
      if x < pos {
        assert after[x] == before[..pos][x];
      } else {
        assert after[x] == part[x - pos];
      }
    }
  }

  lemma SliceOfSlice(data: seq<byte>, at: nat, len: nat, from: nat, count: nat)
    requires at + len <= |data| && from + count <= len
    ensures data[at..at + len][from..from + count] == data[at + from..at + from + count]
  {
    var s, t := data[at..at + len][from..from + count], data[at + from..at + from + count];
    assert |s| == |t| && forall i :: 0 <= i < count ==> s[i] == t[i];
  }

  /** Every byte of `r` is the device's, or the cache's view of it, or what `src` puts there. */
  ghost predicate Mixed(d: seq<byte>, b: seq<byte>, r: seq<byte>, at: nat, src: seq<byte>) {
    && |d| == |b| == |r|
    && forall x :: 0 <= x < |r| ==>
         r[x] == d[x] || r[x] == b[x] || (at <= x < at + |src| && r[x] == src[x - at])
  }

  /** What one device operation of a write can do to the device and to its view through the cache. */
  ghost predicate Stepped(d: seq<byte>, b: seq<byte>, d1: seq<byte>, b1: seq<byte>, at: nat, chunk: seq<byte>) {
    && |d| == |b| && at + |chunk| <= |d|
    && (d1 == d || d1 == Splice(d, at, chunk) || d1 == Splice(b, at, chunk))
    && (b1 == d1 || b1 == b || b1 == Splice(d, at, chunk) || b1 == Splice(b, at, chunk))
  }

  lemma SteppedMixed(d0: seq<byte>, b0: seq<byte>, d: seq<byte>, b: seq<byte>, d1: seq<byte>, b1: seq<byte>,
                     at: nat, src: seq<byte>, i: nat, j: nat)
    requires i <= j <= |src| && at + |src| <= |d0| && Mixed(d0, b0, d, at, src) && Mixed(d0, b0, b, at, src)
    requires Stepped(d, b, d1, b1, at + i, src[i..j])
    ensures Mixed(d0, b0, d1, at, src) && Mixed(d0, b0, b1, at, src)
  {
    hide Splice;
    MixedSplice(d0, b0, d, at, src, i, j);
    MixedSplice(d0, b0, b, at, src, i, j);
  }

  // ---- Which device operations fail, and what a read makes of it ----

  /** The outcome of the next operation in a script of failures; past its end nothing fails. */
  predicate Fails(faults: seq<bool>) {
    faults != [] && faults[0]
  }

  function Rest(faults: seq<bool>): seq<bool> {
    if faults == [] then [] else faults[1..]
  }

  /** How far a read got, and the cached block and script it leaves. */
  datatype Service = Service(filled: nat, cached: Option<nat>, faults: seq<bool>)

  /** A service with `n` bytes before it. */
  function Served(n: nat, s: Service): Service {
    s.(filled := n + s.filled)
  }

  /** A read of `len` bytes at `offset`: whole blocks directly, the rest block by block through the cache. */
  function Serve(bs: nat, cached: Option<nat>, faults: seq<bool>, offset: nat, len: nat): (s: Service)
    requires bs > 0
    ensures s.filled <= len
    decreases len
  {
    if len == 0 then Service(0, cached, faults)
    else if offset % bs == 0 && len >= bs then
      WholeBlocksBounds(len, bs);
      ServeMore(bs, cached, faults, Fails(faults), Rest(faults), cached, offset, len, len / bs * bs)
    else
      BlockOf(offset, bs);
      var n, b := Least(len, bs - offset % bs), offset / bs;
      if cached == Some(b) then ServeMore(bs, cached, faults, false, faults, cached, offset, len, n)
      else ServeMore(bs, cached, faults, Fails(faults), Rest(faults), Some(b), offset, len, n)
  }

  /** One device operation, or none, and the rest of the read unless it failed. */
  function ServeMore(bs: nat, cached: Option<nat>, faults: seq<bool>, fails: bool, rest: seq<bool>, next: Option<nat>,
                     offset: nat, len: nat, n: nat): (s: Service)
    requires bs > 0 && 0 < n <= len
    ensures s.filled <= len
    decreases len, 0
  {
    if fails then Service(0, cached, rest) else Served(n, Serve(bs, next, rest, offset + n, len - n))
  }

  lemma ServeNothing(bs: nat, cached: Option<nat>, faults: seq<bool>, offset: nat)
    requires bs > 0
    ensures Serve(bs, cached, faults, offset, 0) == Service(0, cached, faults)
  {
  }

  lemma ServeWholeStep(bs: nat, cached: Option<nat>, faults: seq<bool>, offset: nat, len: nat)
    requires bs > 0 && offset % bs == 0 && len >= bs
    ensures var n := len / bs * bs;
            && 0 < n <= len
            && Serve(bs, cached, faults, offset, len)
               == if Fails(faults) then Service(0, cached, Rest(faults))
                  else Served(n, Serve(bs, cached, Rest(faults), offset + n, len - n))
  {
    hide Fails, Rest, Served;
    WholeBlocksBounds(len, bs);
  }

  lemma ServePartStep(bs: nat, cached: Option<nat>, faults: seq<bool>, offset: nat, len: nat, n: nat, b: nat)
    requires bs > 0 && 0 < n <= len && (offset % bs != 0 || len < bs)
    requires b == offset / bs && n == if len < bs - offset % bs then len else bs - offset % bs
    ensures Serve(bs, cached, faults, offset, len)
            == if cached == Some(b) then Served(n, Serve(bs, cached, faults, offset + n, len - n))
               else if Fails(faults) then Service(0, cached, Rest(faults))
               else Served(n, Serve(bs, Some(b), Rest(faults), offset + n, len - n))
  {
    hide Fails, Rest, Served;
  }

  lemma LeastIs(a: nat, b: nat)
    ensures Least(a, b) == (if a < b then a else b) && (a > 0 && b > 0 ==> 0 < Least(a, b) <= a)
  {
  }

  /** The first round of a read: its device operation, if it needs one, and what is left to serve. */
  lemma ServeStep(bs: nat, cached: Option<nat>, faults: seq<bool>, offset: nat, len: nat)
    requires bs > 0 && len > 0
    ensures var s := Serve(bs, cached, faults, offset, len);
            if offset % bs == 0 && len >= bs then
              var n := len / bs * bs;
              && 0 < n <= len
              && s == if Fails(faults) then Service(0, cached, Rest(faults))
                      else Served(n, Serve(bs, cached, Rest(faults), offset + n, len - n))
            else
              var (n, b) := (Least(len, bs - offset % bs), Some(offset / bs));
              && 0 < n <= len
              && s == if cached == b then Served(n, Serve(bs, cached, faults, offset + n, len - n))
                      else if Fails(faults) then Service(0, cached, Rest(faults))
                      else Served(n, Serve(bs, b, Rest(faults), offset + n, len - n))
  {
    hide *;
    if offset % bs == 0 && len >= bs {
      ServeWholeStep(bs, cached, faults, offset, len);
    } else {
      BlockOf(offset, bs);
      var r := offset % bs;
      LeastIs(len, bs - r);
      ServePartStep(bs, cached, faults, offset, len, if len < bs - r then len else bs - r, offset / bs);
    }
  }

  lemma {:induction false} NothingFails(bs: nat, cached: Option<nat>, offset: nat, len: nat)
    requires bs > 0
    ensures var s := Serve(bs, cached, [], offset, len); s.filled == len && s.faults == []
    decreases len
  {
    hide Serve;
    if len == 0 {
      ServeNothing(bs, cached, [], offset);
    } else {
      ServeStep(bs, cached, [], offset, len);
      if offset % bs == 0 && len >= bs {
        var n := len / bs * bs;
        NothingFails(bs, cached, offset + n, len - n);
      } else {
        var n := Least(len, bs - offset % bs);
        NothingFails(bs, Some(offset / bs), offset + n, len - n);
      }
    }
  }

  // ---- Which reads can be torn ----

  /** Inside one block, or whole blocks: a read that needs at most one device operation. */
  predicate OneOperation(bs: nat, offset: nat, len: nat)
    requires bs > 0
  {
    offset % bs + len <= bs || (offset % bs == 0 && len % bs == 0)
  }

  lemma OneOperationIsWhole(bs: nat, cached: Option<nat>, faults: seq<bool>, offset: nat, len: nat)
    requires bs > 0 && OneOperation(bs, offset, len)
    ensures var k := Serve(bs, cached, faults, offset, len).filled; k == 0 || k == len
  {
    hide Serve;
    if len > 0 {
      ServeStep(bs, cached, faults, offset, len);
      if offset % bs == 0 && len >= bs {
        BlockOf(len, bs);
        if len % bs != 0 { OneBlockExactly(len, bs); }
        ServeNothing(bs, cached, Rest(faults), offset + len);
      } else {
        BlockOf(offset, bs);
        if len % bs == 0 { NoSmallMultiple(len, bs); }
        ServeNothing(bs, cached, faults, offset + len);
        ServeNothing(bs, Some(offset / bs), Rest(faults), offset + len);
      }
    }
  }

  lemma OneBlockExactly(len: nat, bs: nat)
    requires bs > 0 && len == bs
    ensures len % bs == 0
  {
    WholeBlock(bs);
  }

  lemma NoSmallMultiple(len: nat, bs: nat)
    requires bs > 0 && 0 < len && len % bs == 0
    ensures len >= bs
  {
    BlockOf(len, bs);
    if len / bs > 0 {
      MulMonotone(1, len / bs, bs);
    }
  }

  /** Where a read of two operations stops when the second fails: after the first block's part, or the whole blocks. */
  function TearPoint(bs: nat, offset: nat, len: nat): nat
    requires bs > 0
  {
    if offset % bs == 0 then len / bs * bs else bs - offset % bs
  }

  /** Every other read is torn by some script, the second of its device operations failing. */
  lemma OthersTear(bs: nat, offset: nat, len: nat)
    requires bs > 0 && !OneOperation(bs, offset, len)
    ensures Serve(bs, None, [false, true], offset, len).filled == TearPoint(bs, offset, len)
    ensures 0 < TearPoint(bs, offset, len) < len
  {
    hide Serve;
    ServeStep(bs, None, [false, true], offset, len);
    assert Rest([false, true]) == [true];
    var n := TearPoint(bs, offset, len);
    TearInside(bs, offset, len);
    if offset % bs == 0 {
      ServeStep(bs, None, [true], offset + n, len - n);
    } else {
      NextBlock(offset, bs);
      ServeStep(bs, Some(offset / bs), [true], offset + n, len - n);
    }
  }

  lemma TearInside(bs: nat, offset: nat, len: nat)
    requires bs > 0 && !OneOperation(bs, offset, len)
    ensures 0 < TearPoint(bs, offset, len) < len
    ensures offset % bs == 0 ==> len >= bs && len - TearPoint(bs, offset, len) < bs
    ensures offset % bs != 0 ==> Least(len, bs - offset % bs) == TearPoint(bs, offset, len)
  {
    BlockOf(offset, bs);
    BlockOf(len, bs);
    if offset % bs == 0 {
      WholeBlocksBounds(len, bs);
    }
  }

  lemma NextBlock(offset: nat, bs: nat)
    requires bs > 0
    ensures (offset + (bs - offset % bs)) / bs == offset / bs + 1
  {
    var next := offset + (bs - offset % bs);
    BlockOf(offset, bs);
    BlockOf(next, bs);
    FilledBlock(offset, bs);
    assert next == (offset / bs + 1) * bs == next / bs * bs;
    if next / bs < offset / bs + 1 {
      BlockBefore(next / bs, offset / bs + 1, bs);
    } else if next / bs > offset / bs + 1 {
      BlockBefore(offset / bs + 1, next / bs, bs);
    }
  }

  /** A read is never torn, whatever is cached and whatever fails, if and only if one operation serves it. */
  lemma NeverTornIff(bs: nat, offset: nat, len: nat)
    requires bs > 0
    ensures OneOperation(bs, offset, len) <==>
            forall cached, faults :: Serve(bs, cached, faults, offset, len).filled in {0, len}
  {
    hide Serve, OneOperation;
    if OneOperation(bs, offset, len) {
      forall cached, faults ensures Serve(bs, cached, faults, offset, len).filled in {0, len} {
        OneOperationIsWhole(bs, cached, faults, offset, len);
      }
    } else {
      OthersTear(bs, offset, len);
    }
  }

  // ---- The device ----

  /**
   * A block device. `faults` says which of the coming operations fail; an operation that fails has
   * no effect, on the device or on the buffer.
   */
  class BlockDevice {
    const blockSize: nat
    const numBlocks: nat
    const data: array<byte>
    var faults: seq<bool>

    ghost predicate Valid()
      reads this
    {
      blockSize > 0 && data.Length == numBlocks * blockSize
    }

    constructor (blockSize: nat, numBlocks: nat, faults: seq<bool>)
      requires blockSize > 0
      ensures Valid() && fresh(data) && data[..] == Zeros(numBlocks * blockSize)
      ensures this.blockSize == blockSize && this.numBlocks == numBlocks && this.faults == faults
    {
      this.blockSize := blockSize;
      this.numBlocks := numBlocks;
      this.faults := faults;
      data := new byte[numBlocks * blockSize](_ => 0);
      new;
      assert data[..] == Zeros(numBlocks * blockSize);
    }

    /** Takes the next outcome from the script. */
    method NextFails() returns (fails: bool)
      modifies this`faults
      ensures fails == Fails(old(faults)) && faults == Rest(old(faults))
    {
      if faults == [] {
        return false;
      }
      fails := faults[0];
      faults := faults[1..];
    }

    method ReadBlocks(startBlock: nat, buffer: array<byte>, lo: nat, hi: nat) returns (ok: bool)
      requires Valid() && lo <= hi <= buffer.Length && buffer != data
      requires (hi - lo) % blockSize == 0 && startBlock * blockSize + (hi - lo) <= data.Length
      modifies this`faults, buffer
      ensures ok == !Fails(old(faults)) && faults == Rest(old(faults))
      ensures ok ==>
                var at := startBlock * blockSize;
                buffer[..] == Splice(old(buffer[..]), lo, data[at..at + (hi - lo)])
      ensures !ok ==> buffer[..] == old(buffer[..])
    {
      var fails := NextFails();
      if fails {
        return false;
      }
      Store(buffer, lo, data[startBlock * blockSize..startBlock * blockSize + (hi - lo)]);
      return true;
    }

    method WriteBlocks(startBlock: nat, buffer: seq<byte>) returns (ok: bool)
      requires Valid()
      requires |buffer| % blockSize == 0 && startBlock * blockSize + |buffer| <= data.Length
      modifies this`faults, data
      ensures ok == !Fails(old(faults)) && faults == Rest(old(faults))
      ensures ok ==> data[..] == Splice(old(data[..]), startBlock * blockSize, buffer)
      ensures !ok ==> data[..] == old(data[..])
    {
      var fails := NextFails();
      if fails {
        return false;
      }
      Store(data, startBlock * blockSize, buffer);
      return true;
    }
  }

  datatype BlockResult = BlockOk | DeviceError | OutOfBounds

  /** The bounds test of `read` and `write`: a checked u32 sum against the capacity truncated to u32. */
  predicate InBounds(offset: u32, len: nat, numBlocks: nat, blockSize: nat) {
    offset + len < U32 && offset + len <= numBlocks * blockSize % U32
  }

  lemma InBoundsFits(offset: u32, len: nat, numBlocks: nat, blockSize: nat)
    requires InBounds(offset, len, numBlocks, blockSize)
    ensures offset + len < U32 && offset + len <= numBlocks * blockSize
  {
    TruncatedCapacity(numBlocks * blockSize);
  }

  /** On a device below 4 GiB the bounds test is the device's end; a larger one is taken modulo 4 GiB. */
  lemma InBoundsIff(offset: u32, len: nat, numBlocks: nat, blockSize: nat)
    ensures var capacity := numBlocks * blockSize;
            && (capacity < 0x1_0000_0000 ==>
                  (InBounds(offset, len, numBlocks, blockSize) <==> offset + len <= capacity))
            && (0x1_0000_0000 <= capacity < 0x2_0000_0000 ==>
                  (InBounds(offset, len, numBlocks, blockSize) <==> offset + len <= capacity - 0x1_0000_0000))
  {
    var capacity := numBlocks * blockSize;
    CutOnce(capacity);
  }

  lemma CutOnce(n: nat)
    ensures n < 0x1_0000_0000 ==> n % U32 == n
    ensures 0x1_0000_0000 <= n < 0x2_0000_0000 ==> n % U32 == n - 0x1_0000_0000
  {
  }

  // ---- The adapter ----

  class BlockDeviceAdapter {
    const device: BlockDevice
    const blockSize: nat
    var cachedBlock: Option<nat>
    const cache: array<byte>

    ghost predicate Shape()
      reads this, device
    {
      && device.Valid() && blockSize == device.blockSize
      && cache.Length == blockSize && cache != device.data
    }

    /** The device as it looks through the cache. */
    ghost function Belief(): (b: seq<byte>)
      reads this, device, device.data, cache
      ensures |b| == device.data.Length
    {
      if cachedBlock.Some? && cachedBlock.value * blockSize + blockSize <= device.data.Length
         && cache.Length == blockSize
      then Splice(device.data[..], cachedBlock.value * blockSize, cache[..])
      else device.data[..]
    }

    /** What holds at all times, whatever the device fails: the cached block, if any, is one of the device's. */
    ghost predicate Sane()
      reads this, device
    {
      Shape() && (cachedBlock.Some? ==> cachedBlock.value * blockSize + blockSize <= device.data.Length)
    }

    /** A cached block is a copy of the device's block. */
    ghost predicate Coherent()
      reads this, device, device.data, cache
    {
      cachedBlock.Some? ==> CopyOf(cachedBlock.value, device.data[..], cache[..])
    }

    ghost predicate CopyOf(b: nat, data: seq<byte>, copy: seq<byte>) {
      b * blockSize + blockSize <= |data| && copy == data[b * blockSize..b * blockSize + blockSize]
    }

    ghost predicate Valid()
      reads this, device, device.data, cache
    {
      Shape() && Coherent()
    }

    lemma CoherentIff()
      requires Sane()
      ensures Coherent() <==> Belief() == device.data[..]
    {
      if cachedBlock.Some? {
        var at := cachedBlock.value * blockSize;
        assert Belief()[at..at + blockSize] == cache[..];
        assert device.data[..] == device.data[..at] + device.data[at..at + blockSize] + device.data[at + blockSize..];
      }
    }

    lemma ValidIsSane()
      requires Valid()
      ensures Sane() && Belief() == device.data[..]
    {
      CoherentIff();
    }

    lemma CachedSlice()
      requires Sane() && cachedBlock.Some?
      ensures Belief()[cachedBlock.value * blockSize..cachedBlock.value * blockSize + blockSize] == cache[..]
    {
    }

    constructor (device: BlockDevice)
      requires device.Valid()
      ensures Valid() && this.device == device && fresh(cache) && cachedBlock == None
    {
      this.device := device;
      blockSize := device.blockSize;
      cachedBlock := None;
      cache := new byte[device.blockSize](_ => 0);
    }

    /** Brings block `b` into the cache unless it is there already. */
    method Refill(b: nat) returns (ok: bool)
      requires Sane() && b * blockSize + blockSize <= device.data.Length
      modifies this, device`faults, cache
      ensures Sane() && (ok ==> cachedBlock == Some(b))
      ensures Belief() == old(Belief()) || Belief() == device.data[..]
      ensures (ok, cachedBlock, device.faults)
              == if old(cachedBlock) == Some(b) then (true, Some(b), old(device.faults))
                 else (!Fails(old(device.faults)), if ok then Some(b) else old(cachedBlock), Rest(old(device.faults)))
    {
      if cachedBlock == Some(b) {
        return true;
      }
      WholeBlock(blockSize);
      ghost var block := device.data[b * blockSize..b * blockSize + blockSize];
      ok := device.ReadBlocks(b, cache, 0, blockSize);
      if ok {
        SpliceAll(old(cache[..]), block);
        cachedBlock := Some(b);
        CoherentIff();
      }
    }

    /** The direct path: all the whole blocks from a block boundary on, in one device read. */
    method ReadWhole(dest: array<byte>, offset: nat, pos: nat) returns (ok: bool, count: nat)
      requires Sane() && dest != cache && dest != device.data
      requires offset % blockSize == 0 && pos + blockSize <= dest.Length
               && offset + (dest.Length - pos) <= device.data.Length
      modifies device`faults, dest
      ensures Sane() && Belief() == old(Belief()) && 0 < count && pos + count <= dest.Length
      ensures count == (dest.Length - pos) / blockSize * blockSize
      ensures ok == !Fails(old(device.faults)) && device.faults == Rest(old(device.faults))
      ensures ok ==> dest[..] == Splice(old(dest[..]), pos, device.data[offset..offset + count])
      ensures !ok ==> dest[..] == old(dest[..])
    {
      var wholeBlocks := (dest.Length - pos) / blockSize;
      count := wholeBlocks * blockSize;
      WholeBlocksFrom(offset, dest.Length - pos, blockSize);
      ok := device.ReadBlocks(offset / blockSize, dest, pos, pos + count);
    }

    /** The bounce-buffer path: what the request and the cached block have in common. */
    method ReadPart(dest: array<byte>, offset: nat, pos: nat) returns (ok: bool, count: nat)
      requires Sane() && dest != cache && dest != device.data
      requires pos < dest.Length && offset + (dest.Length - pos) <= device.data.Length
      modifies this, device`faults, cache, dest
      ensures Sane() && 0 < count && pos + count <= dest.Length
      ensures Belief() == old(Belief()) || Belief() == device.data[..]
      ensures ok ==> dest[..] == Splice(old(dest[..]), pos, Belief()[offset..offset + count])
      ensures !ok ==> dest[..] == old(dest[..])
      ensures count == Least(dest.Length - pos, blockSize - offset % blockSize)
      ensures (ok, cachedBlock, device.faults)
              == if old(cachedBlock) == Some(offset / blockSize) then (true, old(cachedBlock), old(device.faults))
                 else (!Fails(old(device.faults)), if ok then Some(offset / blockSize) else old(cachedBlock),
                       Rest(old(device.faults)))
    {
      hide Splice, Belief;
      var blockIdx, blockOffset := offset / blockSize, offset % blockSize;
      BlockOf(offset, blockSize);
      BlockFits(offset, blockSize, device.numBlocks);
      count := Least(dest.Length - pos, blockSize - blockOffset);
      ok := Refill(blockIdx);
      if ok {
        Store(dest, pos, cache[blockOffset..blockOffset + count]);
        CachedSlice();
        SliceOfSlice(Belief(), blockIdx * blockSize, blockSize, blockOffset, count);
      }
    }

    /** One round of the loop, by whichever path, from `view`: the device or the device as cached. */
    method ReadNext(dest: array<byte>, offset: nat, pos: nat) returns (ok: bool, count: nat, ghost view: seq<byte>)
      requires Sane() && dest != cache && dest != device.data
      requires pos < dest.Length && offset + (dest.Length - pos) <= device.data.Length
      modifies this, device`faults, cache, dest
      ensures Sane() && 0 < count && pos + count <= dest.Length
      ensures Belief() == old(Belief()) || Belief() == device.data[..]
      ensures (view == old(Belief()) || view == device.data[..]) && |view| == device.data.Length
      ensures ok ==> dest[..] == Splice(old(dest[..]), pos, view[offset..offset + count])
      ensures !ok ==> dest[..] == old(dest[..])
      ensures Serve(blockSize, old(cachedBlock), old(device.faults), offset, dest.Length - pos)
              == if ok then
                   Served(count,
                          Serve(blockSize, cachedBlock, device.faults, offset + count, dest.Length - pos - count))
                 else Service(0, cachedBlock, device.faults)
    {
      hide Splice, Belief, Serve, Coherent;
      ServeStep(blockSize, cachedBlock, device.faults, offset, dest.Length - pos);
      if offset % blockSize == 0 && dest.Length - pos >= blockSize {
        view := device.data[..];
        ok, count := ReadWhole(dest, offset, pos);
      } else {
        ok, count := ReadPart(dest, offset, pos);
        view := Belief();
      }
    }

    /** The loop: it ends where `Serve` says, having filled what comes before. */
    method ReadOn(start: u32, dest: array<byte>) returns (ok: bool, ghost filled: nat)
      requires Sane() && dest != cache && dest != device.data
      requires start + dest.Length < U32 && start + dest.Length <= device.data.Length
      modifies this, device`faults, cache, dest
      ensures Sane() && (Belief() == old(Belief()) || Belief() == device.data[..])
      ensures Serve(blockSize, old(cachedBlock), old(device.faults), start, dest.Length)
              == Service(filled, cachedBlock, device.faults)
      ensures Reading(dest[..], old(dest[..]), device.data[..], old(Belief()), start, filled)
      ensures ok <==> filled == dest.Length
    {
      hide Splice, Coherent, CopyOf, Belief, Either, Serve, ServeMore, Reading;
      ghost var was, data, view := dest[..], device.data[..], Belief();
      ghost var all := Serve(blockSize, cachedBlock, device.faults, start, dest.Length);
      var offset: u32, pos: nat := start, 0;
      ReadingStarts(was, data, view, start);
      while pos < dest.Length
        invariant pos <= dest.Length && offset == start + pos
        invariant Sane() && (Belief() == view || Belief() == data)
        invariant Reading(dest[..], was, data, view, start, pos)
        invariant all == Served(pos, Serve(blockSize, cachedBlock, device.faults, offset, dest.Length - pos))
      {
        ghost var before := dest[..];
        var done, count, from := ReadNext(dest, offset, pos);
        if !done {
          return false, pos;
        }
        ReadingGrows(before, was, data, view, from, start, pos, count);
        offset, pos := offset + count, pos + count;
      }
      ServeNothing(blockSize, cachedBlock, device.faults, offset);
      return true, pos;
    }

    /**
     * Reads are those of a flat array; with an incoherent cache each byte is the device's or the cache's.
     * A read the device fails has filled the bytes served before, `Serve` says how many, and no others.
     */
    method Read(start: u32, dest: array<byte>) returns (r: BlockResult)
      requires Sane() && dest.Length < U32 && dest != cache && dest != device.data
      modifies this, device`faults, cache, dest
      ensures Sane() && (old(Coherent()) ==> Coherent())
      ensures r == OutOfBounds <==> !InBounds(start, dest.Length, device.numBlocks, blockSize)
      ensures r == OutOfBounds ==> dest[..] == old(dest[..])
      ensures old(Coherent()) && r == BlockOk ==>
                start + dest.Length <= device.data.Length && dest[..] == device.data[start..start + dest.Length]
      ensures r != OutOfBounds ==>
                var s := Serve(blockSize, old(cachedBlock), old(device.faults), start, dest.Length);
                && (r == BlockOk <==> s.filled == dest.Length) && cachedBlock == s.cached && device.faults == s.faults
                && start + dest.Length <= device.data.Length && dest[s.filled..] == old(dest[s.filled..])
                && (old(Coherent()) ==> dest[..s.filled] == device.data[start..start + s.filled])
                && Either(dest[..s.filled], device.data[..], old(Belief()), start)
      ensures old(device.faults) == [] ==> r != DeviceError && device.faults == []
      // Whatever has failed before.
      ensures Belief() == old(Belief()) || Belief() == device.data[..]
      ensures r == BlockOk ==> Either(dest[..], device.data[..], old(Belief()), start)
    {
      hide Splice, Coherent, CopyOf, Belief, Either, Serve, ServeMore, InBounds, Reading;
      CoherentIff();
      if !InBounds(start, dest.Length, device.numBlocks, blockSize) {
        return OutOfBounds;
      }
      ghost var was, data, view := dest[..], device.data[..], Belief();
      InBoundsFits(start, dest.Length, device.numBlocks, blockSize);
      NothingFails(blockSize, cachedBlock, start, dest.Length);
      var ok, filled := ReadOn(start, dest);
      CoherentIff();
      ReadingSays(dest[..], was, data, view, start, filled);
      return if ok then BlockOk else DeviceError;
    }

    method Erase(from: u32, to: u32) returns (r: BlockResult)
      requires Sane()
      ensures r == if from > to || to > device.data.Length then OutOfBounds else BlockOk
    {
      if from > to || to > device.numBlocks * blockSize {
        return OutOfBounds;
      }
      return BlockOk;
    }

    /** The direct path: all the whole blocks from a block boundary on, in one device write. */
    method WriteWhole(offset: nat, src: seq<byte>) returns (ok: bool, count: nat)
      requires Sane() && offset % blockSize == 0 && blockSize <= |src| && offset + |src| <= device.data.Length
      modifies this, device`faults, device.data
      ensures Sane() && 0 < count <= |src| && (offset + count) % blockSize == 0
      ensures ok ==> device.data[..] == Splice(old(device.data[..]), offset, src[..count])
      ensures ok ==> Belief() == Splice(old(Belief()), offset, src[..count]) || Belief() == device.data[..]
      ensures !ok ==> device.data[..] == old(device.data[..]) && Belief() == old(Belief())
      ensures old(device.faults) == [] ==> ok && device.faults == []
    {
      var blockIdx, wholeBlocks := offset / blockSize, |src| / blockSize;
      count := wholeBlocks * blockSize;
      WholeBlocksFrom(offset, |src|, blockSize);
      hide Splice, Coherent, CopyOf;
      ghost var was := device.data[..];
      ok := device.WriteBlocks(blockIdx, src[..count]);
      if ok {
        if cachedBlock.Some? && cachedBlock.value >= blockIdx && cachedBlock.value < blockIdx + wholeBlocks {
          cachedBlock := None;
        } else if cachedBlock.Some? {
          CachedApart(was, blockIdx, wholeBlocks, src[..count], cachedBlock.value, cache[..], blockSize);
        }
      }
    }

    /**
     * Read-modify-write of the part of `src` that falls in the block of `offset`. If the final write
     * fails, the cache holds the bytes the device does not.
     */
    method WritePart(offset: nat, src: seq<byte>) returns (ok: bool, count: nat)
      requires Sane() && src != [] && offset + |src| <= device.data.Length
      modifies this, device`faults, device.data, cache
      ensures Sane() && 0 < count <= |src| && (count < |src| ==> (offset + count) % blockSize == 0)
      ensures ok ==> Belief() == device.data[..]
      ensures ok ==> device.data[..] == Splice(old(device.data[..]), offset, src[..count])
                     || device.data[..] == Splice(old(Belief()), offset, src[..count])
      ensures !ok ==> device.data[..] == old(device.data[..])
      ensures !ok ==> Belief() == old(Belief()) || Belief() == device.data[..] || AheadOfDevice(offset, src[..count])
                      || (cachedBlock == Some(offset / blockSize)
                          && Belief() == Splice(old(Belief()), offset, src[..count]))
      ensures old(device.faults) == [] ==> ok && device.faults == []
    {
      hide Splice;
      var blockIdx, blockOffset := offset / blockSize, offset % blockSize;
      BlockOf(offset, blockSize);
      BlockFits(offset, blockSize, device.numBlocks);
      FilledBlock(offset, blockSize);
      count := Least(|src|, blockSize - blockOffset);
      ghost var was, at := device.data[..], blockIdx * blockSize;
      ok := Refill(blockIdx);
      if ok {
        ghost var cached := cache[..];
        assert Belief() == Splice(was, at, cached);
        Store(cache, blockOffset, src[..count]);
        WholeBlock(blockSize);
        BlockRewritten(was, at, cached, blockOffset, src[..count]);
        assert Belief() == Splice(Splice(was, at, cached), offset, src[..count]);
        ok := device.WriteBlocks(blockIdx, cache[..]);
        SpliceTwice(was, at, cache[..]);
      }
    }

    /** The cache, and it alone, has `chunk` in the block of `offset`. */
    ghost predicate AheadOfDevice(offset: nat, chunk: seq<byte>)
      reads this, device, device.data, cache
    {
      && Sane() && cachedBlock == Some(offset / blockSize) && offset + |chunk| <= device.data.Length
      && Belief() == Splice(device.data[..], offset, chunk)
    }

    /** One round of the loop, by whichever path. */
    method WriteNext(offset: nat, src: seq<byte>) returns (ok: bool, step: nat)
      requires Sane() && src != [] && offset + |src| <= device.data.Length
      modifies this, device`faults, device.data, cache
      ensures Sane() && 0 < step <= |src| && (ok && step < |src| ==> (offset + step) % blockSize == 0)
      ensures Stepped(old(device.data[..]), old(Belief()), device.data[..], Belief(), offset, src[..step])
      ensures ok && old(Belief()) == old(device.data[..]) ==>
                Belief() == device.data[..] == Splice(old(device.data[..]), offset, src[..step])
      ensures !ok ==> device.data[..] == old(device.data[..])
      ensures !ok && old(Belief()) == old(device.data[..]) ==>
                Belief() == device.data[..] || AheadOfDevice(offset, src[..step])
      ensures old(device.faults) == [] ==> ok && device.faults == []
    {
      hide Splice, Belief, Coherent, CopyOf;
      if offset % blockSize == 0 && |src| >= blockSize {
        ok, step := WriteWhole(offset, src);
      } else {
        ok, step := WritePart(offset, src);
      }
    }

    /**
     * Writes are those of a flat array. After a device error a prefix of `src` that ends on a block
     * boundary is on the device, and at most the block of the failed part is ahead of it in the cache.
     * Whatever has failed before, every byte is still the device's, the cache's, or what `src` puts there.
     */
    method Write(start: u32, src: seq<byte>) returns (r: BlockResult, ghost done: nat, ghost count: nat)
      requires Sane() && |src| < U32
      modifies this, device`faults, device.data, cache
      ensures Sane() && done + count <= |src|
      ensures r == OutOfBounds <==> !InBounds(start, |src|, device.numBlocks, blockSize)
      ensures r == OutOfBounds ==> device.data[..] == old(device.data[..]) && Belief() == old(Belief())
      ensures r != OutOfBounds ==> start + |src| <= device.data.Length
      ensures old(Coherent()) && r != DeviceError ==> Coherent()
      ensures old(Coherent()) && r == BlockOk ==> device.data[..] == Splice(old(device.data[..]), start, src)
      ensures old(Coherent()) && r == DeviceError ==>
                && device.data[..] == Splice(old(device.data[..]), start, src[..done])
                && (done == 0 || (start + done) % blockSize == 0)
                && (Coherent() || AheadOfDevice(start + done, src[done..done + count]))
      ensures old(device.faults) == [] ==> r != DeviceError && device.faults == []
      ensures Mixed(old(device.data[..]), old(Belief()), device.data[..], start, src)
      ensures Mixed(old(device.data[..]), old(Belief()), Belief(), start, src)
    {
      hide Splice, Coherent, CopyOf, Belief, Mixed, Stepped, AheadOfDevice, InBounds;
      done, count := 0, 0;
      CoherentIff();
      ghost var was, view := device.data[..], Belief();
      MixedStart(was, view, start, src);
      if !InBounds(start, |src|, device.numBlocks, blockSize) {
        return OutOfBounds, 0, 0;
      }
      var offset: u32, pos: nat := start, 0;
      InBoundsFits(start, |src|, device.numBlocks, blockSize);
      SpliceNothing(was, start, src);
      while pos < |src|
        invariant pos <= |src| && offset == start + pos && start + |src| <= device.data.Length
        invariant Sane() && Mixed(was, view, device.data[..], start, src) && Mixed(was, view, Belief(), start, src)
        invariant was == view ==> Belief() == device.data[..] == Splice(was, start, src[..pos])
        invariant pos == 0 || pos == |src| || offset % blockSize == 0
        invariant old(device.faults) == [] ==> device.faults == []
      {
        var ok, step;
        ghost var rest, d, b := src[pos..], device.data[..], Belief();
        ok, step := WriteNext(offset, src[pos..]);
        assert rest[..step] == src[pos..pos + step];
        SteppedMixed(was, view, d, b, device.data[..], Belief(), start, src, pos, pos + step);
        if !ok {
          CoherentIff();
          return DeviceError, pos, step;
        }
        SpliceMore(was, start, src, pos, pos + step);
        offset, pos := offset + step, pos + step;
      }
      assert src[..pos] == src;
      CoherentIff();
      return BlockOk, 0, 0;
    }
  }

  lemma MixedStart(d: seq<byte>, b: seq<byte>, at: nat, src: seq<byte>)
    requires |d| == |b|
    ensures Mixed(d, b, d, at, src) && Mixed(d, b, b, at, src)
  {
  }
}
