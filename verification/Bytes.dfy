/** Machine integers, bytes as bit vectors, little-endian codecs, and the option type. */
module Bytes {

  type byte = bv8

  const U16: nat := 0x1_0000
  const U32: nat := 0x1_0000_0000
  const U64: nat := 0x1_0000_0000_0000_0000

  type u16 = n: nat | n < U16
  type u32 = n: nat | n < U32
  type u64 = n: nat | n < U64

  datatype Option<+T> = None | Some(value: T)

  /** Addition of two `u32` values as release builds compute it. */
  function WrapAdd(a: nat, b: nat): u32 {
    (a + b) % U32
  }

  /** Wrapping on the way makes no difference. */
  lemma WrapTwice(a: nat, b: nat, c: nat)
    ensures WrapAdd(WrapAdd(a, b), c) == WrapAdd(a, b + c) == (a + b + c) % U32
  {
    var s := a + b;
    assert s == U32 * (s / U32) + s % U32;
    assert s + c == U32 * (s / U32) + (s % U32 + c);
  }

  /** The step of a wrapping 64-bit usage counter. */
  function Bump(counter: u64): u64 {
    (counter + 1) % U64
  }

  function Least(a: nat, b: nat): nat {
    if a < b then a else b
  }

  lemma SubsetSize<T>(a: set<T>, b: set<T>)
    requires a <= b
    ensures |a| <= |b| && (|a| == |b| ==> a == b)
  {
    assert b == a + (b - a);
    assert |b| == |a| + |b - a|;
  }

  // ---- Numbers as bits, least significant first ----

  function Pow(base: nat, n: nat): nat {
    if n == 0 then 1 else base * Pow(base, n - 1)
  }

  function NumOf(bits: seq<bool>): nat {
    if bits == [] then 0 else (if bits[0] then 1 else 0) + 2 * NumOf(bits[1..])
  }

  function BitsOf(v: nat, n: nat): (bits: seq<bool>)
    ensures |bits| == n
  {
    if n == 0 then [] else [v % 2 == 1] + BitsOf(v / 2, n - 1)
  }

  lemma {:induction false} NumOfBitsOf(v: nat, n: nat)
    requires v < Pow(2, n)
    ensures NumOf(BitsOf(v, n)) == v
  {
    if n > 0 {
      NumOfBitsOf(v / 2, n - 1);
      assert BitsOf(v, n)[1..] == BitsOf(v / 2, n - 1);
    }
  }

  lemma {:induction false} BitsOfNumOf(bits: seq<bool>)
    ensures NumOf(bits) < Pow(2, |bits|) && BitsOf(NumOf(bits), |bits|) == bits
  {
    if bits != [] {
      BitsOfNumOf(bits[1..]);
      assert NumOf(bits) / 2 == NumOf(bits[1..]);
      assert bits == [bits[0]] + bits[1..];
    }
  }

  // ---- The number a byte stands for ----

  function BitByte(c: bool, b: byte): byte { if c then b else 0 }

  function JoinBits(c0: bool, c1: bool, c2: bool, c3: bool, c4: bool, c5: bool, c6: bool, c7: bool): byte {
    BitByte(c0, 1) | BitByte(c1, 2) | BitByte(c2, 4) | BitByte(c3, 8)
    | BitByte(c4, 16) | BitByte(c5, 32) | BitByte(c6, 64) | BitByte(c7, 128)
  }

  function ByteBits(b: byte): (bits: seq<bool>)
    ensures |bits| == 8
  {
    [b & 1 != 0, b & 2 != 0, b & 4 != 0, b & 8 != 0, b & 16 != 0, b & 32 != 0, b & 64 != 0, b & 128 != 0]
  }

  lemma JoinSplits(c0: bool, c1: bool, c2: bool, c3: bool, c4: bool, c5: bool, c6: bool, c7: bool)
    ensures var b := JoinBits(c0, c1, c2, c3, c4, c5, c6, c7);
            && (b & 1 != 0) == c0 && (b & 2 != 0) == c1 && (b & 4 != 0) == c2 && (b & 8 != 0) == c3
            && (b & 16 != 0) == c4 && (b & 32 != 0) == c5 && (b & 64 != 0) == c6 && (b & 128 != 0) == c7
  {
  }

  lemma SplitOfJoin(c0: bool, c1: bool, c2: bool, c3: bool, c4: bool, c5: bool, c6: bool, c7: bool)
    ensures var s := ByteBits(JoinBits(c0, c1, c2, c3, c4, c5, c6, c7));
            s[0] == c0 && s[1] == c1 && s[2] == c2 && s[3] == c3 && s[4] == c4 && s[5] == c5 && s[6] == c6 && s[7] == c7
  {
    hide JoinBits;
    JoinSplits(c0, c1, c2, c3, c4, c5, c6, c7);
  }

  lemma SameEight(a: seq<bool>, b: seq<bool>)
    requires |a| == |b| == 8 && a[0] == b[0] && a[1] == b[1] && a[2] == b[2] && a[3] == b[3]
    requires a[4] == b[4] && a[5] == b[5] && a[6] == b[6] && a[7] == b[7]
    ensures a == b
  {
  }

  lemma SplitJoins(b: byte)
    ensures b == JoinBits(b & 1 != 0, b & 2 != 0, b & 4 != 0, b & 8 != 0,
                          b & 16 != 0, b & 32 != 0, b & 64 != 0, b & 128 != 0)
  {
  }

  function ByteValue(b: byte): (n: nat)
    ensures n < 256
  {
    BitsOfNumOf(ByteBits(b)); PowKnown();
    NumOf(ByteBits(b))
  }

  function Byte(n: nat): byte
    requires n < 256
  {
    var c := BitsOf(n, 8);
    JoinBits(c[0], c[1], c[2], c[3], c[4], c[5], c[6], c[7])
  }

  lemma PowKnown()
    ensures Pow(2, 8) == 256 && Pow(256, 2) == U16 && Pow(256, 4) == U32
  {
    assert Pow(2, 4) == 16;
    assert Pow(2, 8) == 16 * Pow(2, 4);
    assert Pow(256, 2) == 256 * Pow(256, 1);
    assert Pow(256, 3) == 256 * Pow(256, 2);
  }

  lemma ByteBitsOfByte(n: nat, c: seq<bool>)
    requires n < 256 && c == BitsOf(n, 8)
    ensures ByteBits(Byte(n)) == c
  {
    hide BitsOf, JoinBits, ByteBits;
    SplitOfJoin(c[0], c[1], c[2], c[3], c[4], c[5], c[6], c[7]);
    SameEight(ByteBits(Byte(n)), c);
  }

  lemma ValueOfByte(n: nat)
    requires n < 256
    ensures ByteValue(Byte(n)) == n
  {
    ByteBitsOfByte(n, BitsOf(n, 8));
    PowKnown();
    NumOfBitsOf(n, 8);
  }

  lemma ByteOfValue(b: byte)
    ensures Byte(ByteValue(b)) == b
  {
    BitsOfNumOf(ByteBits(b));
    SplitJoins(b);
  }

  function Bit(c: bool): nat {
    if c then 1 else 0
  }

  lemma NumOfFour(s: seq<bool>)
    requires |s| >= 4
    ensures NumOf(s) == Bit(s[0]) + 2 * Bit(s[1]) + 4 * Bit(s[2]) + 8 * Bit(s[3]) + 16 * NumOf(s[4..])
  {
    assert s[1..][1..] == s[2..] && s[2..][1..] == s[3..] && s[3..][1..] == s[4..];
  }

  lemma BitsOfByte(b: byte)
    ensures var s := ByteBits(b);
            b as nat == Bit(s[0]) + 2 * Bit(s[1]) + 4 * Bit(s[2]) + 8 * Bit(s[3])
                        + 16 * Bit(s[4]) + 32 * Bit(s[5]) + 64 * Bit(s[6]) + 128 * Bit(s[7])
  {
  }

  /** A byte's number is the one its bits stand for as a machine word. */
  lemma ByteValueIs(b: byte)
    ensures ByteValue(b) == b as nat
  {
    hide ByteBits;
    var s := ByteBits(b);
    NumOfFour(s); NumOfFour(s[4..]);
    assert s[4..][4..] == [];
    BitsOfByte(b);
  }

  // ---- Little-endian words ----

  function LeBytes(n: nat, k: nat): (b: seq<byte>)
    ensures |b| == k
  {
    if k == 0 then [] else [Byte(n % 256)] + LeBytes(n / 256, k - 1)
  }

  function FromLeBytes(b: seq<byte>): nat {
    if b == [] then 0 else ByteValue(b[0]) + 256 * FromLeBytes(b[1..])
  }

  lemma {:induction false} LeRoundTrip(n: nat, k: nat)
    requires n < Pow(256, k)
    ensures FromLeBytes(LeBytes(n, k)) == n
  {
    if k > 0 {
      LeRoundTrip(n / 256, k - 1);
      ValueOfByte(n % 256);
      assert LeBytes(n, k)[1..] == LeBytes(n / 256, k - 1);
    }
  }

  lemma {:induction false} FromLeBound(b: seq<byte>)
    ensures FromLeBytes(b) < Pow(256, |b|)
  {
    if b != [] {
      FromLeBound(b[1..]);
    }
  }

  lemma LeBytesStep(n: nat, k: nat, low: nat, rest: nat)
    requires n == low + 256 * rest && low < 256 && k > 0
    ensures LeBytes(n, k) == [Byte(low)] + LeBytes(rest, k - 1)
  {
    assert n % 256 == low && n / 256 == rest;
  }

  lemma {:induction false} FromLeRoundTrip(b: seq<byte>)
    ensures LeBytes(FromLeBytes(b), |b|) == b
  {
    if b != [] {
      FromLeRoundTrip(b[1..]);
      LeBytesStep(FromLeBytes(b), |b|, ByteValue(b[0]), FromLeBytes(b[1..]));
      ByteOfValue(b[0]);
      assert b == [b[0]] + b[1..];
    }
  }

  function Le16(n: u16): (b: seq<byte>)
    ensures |b| == 2
  {
    LeBytes(n, 2)
  }

  function Le32(n: u32): (b: seq<byte>)
    ensures |b| == 4
  {
    LeBytes(n, 4)
  }

  function FromLe16(b: seq<byte>): u16
    requires |b| == 2
  {
    FromLeBound(b); PowKnown();
    FromLeBytes(b)
  }

  function FromLe32(b: seq<byte>): u32
    requires |b| == 4
  {
    FromLeBound(b); PowKnown();
    FromLeBytes(b)
  }

  lemma Le16RoundTrip(n: u16)
    ensures FromLe16(Le16(n)) == n
  {
    PowKnown();
    LeRoundTrip(n, 2);
  }

  lemma FromLe16RoundTrip(b: seq<byte>)
    requires |b| == 2
    ensures Le16(FromLe16(b)) == b
  {
    FromLeRoundTrip(b);
  }

  lemma FromLe32RoundTrip(b: seq<byte>)
    requires |b| == 4
    ensures Le32(FromLe32(b)) == b
  {
    FromLeRoundTrip(b);
  }

  lemma Le32RoundTrip(n: u32)
    ensures FromLe32(Le32(n)) == n
  {
    PowKnown();
    LeRoundTrip(n, 4);
  }

  /** The number in two bytes, the low one first. */
  lemma LittleEndian16(b: seq<byte>)
    requires |b| == 2
    ensures FromLe16(b) == b[0] as nat + 0x100 * (b[1] as nat)
  {
    hide ByteValue;
    ByteValueIs(b[0]); ByteValueIs(b[1]);
    assert b[1..][1..] == [] && FromLeBytes(b[1..]) == ByteValue(b[1]) + 256 * FromLeBytes([]);
  }

  /** The number in four bytes, the lowest first. */
  lemma LittleEndian32(b: seq<byte>)
    requires |b| == 4
    ensures FromLe32(b)
            == b[0] as nat + 0x100 * (b[1] as nat) + 0x1_0000 * (b[2] as nat) + 0x100_0000 * (b[3] as nat)
  {
    hide ByteValue;
    ByteValueIs(b[0]); ByteValueIs(b[1]); ByteValueIs(b[2]); ByteValueIs(b[3]);
    assert b[1..][1..] == b[2..] && b[2..][1..] == b[3..] && b[3..][1..] == [];
    assert FromLeBytes(b[2..]) == ByteValue(b[2]) + 256 * FromLeBytes(b[3..]);
    assert FromLeBytes(b[1..]) == ByteValue(b[1]) + 256 * FromLeBytes(b[2..]);
  }

  /** Checksums stay bit vectors; these are their little-endian bytes. */
  function LeBits32(x: bv32): (b: seq<byte>)
    ensures |b| == 4
  {
    [(x & 0xFF) as bv8, ((x >> 8) & 0xFF) as bv8, ((x >> 16) & 0xFF) as bv8, (x >> 24) as bv8]
  }

  function Join32(a: byte, b: byte, c: byte, d: byte): bv32 {
    (a as bv32) | (b as bv32 << 8) | (c as bv32 << 16) | (d as bv32 << 24)
  }

  function FromLeBits32(b: seq<byte>): bv32
    requires |b| == 4
  {
    Join32(b[0], b[1], b[2], b[3])
  }

  lemma LeBits32RoundTrip(x: bv32)
    ensures FromLeBits32(LeBits32(x)) == x
  {
    assert Join32((x & 0xFF) as bv8, ((x >> 8) & 0xFF) as bv8, ((x >> 16) & 0xFF) as bv8, (x >> 24) as bv8) == x;
  }

  lemma Join32Split(a: byte, b: byte, c: byte, d: byte)
    ensures var x := Join32(a, b, c, d);
            && (x & 0xFF) as bv8 == a && ((x >> 8) & 0xFF) as bv8 == b
            && ((x >> 16) & 0xFF) as bv8 == c && (x >> 24) as bv8 == d
  {
  }

  lemma FromLeBits32RoundTrip(b: seq<byte>)
    requires |b| == 4
    ensures LeBits32(FromLeBits32(b)) == b
  {
    hide Join32;
    Join32Split(b[0], b[1], b[2], b[3]);
  }

  /** `count` zero bytes. */
  function Zeros(count: nat): (z: seq<byte>)
    ensures |z| == count
  {
    seq(count, _ => 0)
  }

  /** Copies `src` into `buf` at `at`. */
  method CopyFromSlice(buf: array<byte>, at: nat, src: seq<byte>)
    requires at + |src| <= buf.Length
    modifies buf
    ensures buf[..at + |src|] == old(buf[..at]) + src
    ensures buf[at + |src|..] == old(buf[at + |src|..])
  {
    for k := 0 to |src|
      invariant buf[..at] == old(buf[..at]) && buf[at..at + k] == src[..k]
      invariant buf[at + |src|..] == old(buf[at + |src|..])
    {
      buf[at + k] := src[k];
    }
  }
}
