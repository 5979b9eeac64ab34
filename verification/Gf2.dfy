/** 32-bit registers as polynomials over GF(2). Proofs above this module hide the bit operations. */
module Gf2 {

  function Xor(a: bv32, b: bv32): bv32 { a ^ b }

  function Half(a: bv32): bv32 { a >> 1 }

  function Double(a: bv32): bv32 { a << 1 }

  predicate Odd(a: bv32) { a & 1 != 0 }

  predicate Narrow(a: bv32) { a <= 0x7FFF_FFFF }

  function Low(b: bool): bv32 { if b then 1 else 0 }

  lemma XorDef(a: bv32, b: bv32)
    ensures Xor(a, b) == a ^ b
  {
  }

  lemma XorRaw(a: bv32, b: bv32, c: bv32)
    ensures Xor(a ^ b, c) == Xor(a, b ^ c)
    ensures Xor(a ^ c, b ^ c) == a ^ b
  {
  }

  lemma XorAssoc(a: bv32, b: bv32, c: bv32)
    ensures Xor(Xor(a, b), c) == Xor(a, Xor(b, c))
  {
    hide Xor;
    XorDef(a, b); XorDef(b, c); XorRaw(a, b, c);
  }

  lemma XorComm(a: bv32, b: bv32)
    ensures Xor(a, b) == Xor(b, a)
  {
  }

  lemma XorZero(a: bv32)
    ensures Xor(a, a) == 0 && Xor(a, 0) == a && Xor(0, a) == a
  {
  }

  lemma XorCancel(a: bv32, b: bv32, c: bv32)
    requires Xor(a, b) == Xor(a, c)
    ensures b == c
  {
    hide Xor;
    XorAssoc(a, a, b); XorAssoc(a, a, c);
    XorZero(a); XorZero(b); XorZero(c);
  }

  lemma XorPairs(a: bv32, b: bv32, c: bv32, d: bv32)
    ensures Xor(Xor(a, b), Xor(c, d)) == Xor(Xor(a, c), Xor(b, d))
  {
    hide Xor;
    XorAssoc(a, b, Xor(c, d)); XorAssoc(b, c, d); XorComm(b, c);
    XorAssoc(c, b, d); XorAssoc(a, c, Xor(b, d));
  }

  lemma HalfXor(a: bv32, b: bv32)
    ensures Half(Xor(a, b)) == Xor(Half(a), Half(b))
  {
  }

  lemma OddXor(a: bv32, b: bv32)
    ensures Odd(Xor(a, b)) == (Odd(a) != Odd(b))
  {
  }

  lemma DoubleXor(a: bv32, b: bv32)
    ensures Double(Xor(a, b)) == Xor(Double(a), Double(b))
  {
  }

  lemma HalfNarrow(a: bv32)
    ensures Narrow(Half(a))
  {
  }

  lemma DoubleHalf(a: bv32)
    requires Narrow(a)
    ensures Half(Double(a)) == a && !Odd(Double(a))
  {
  }

  lemma LowFacts(b: bool)
    ensures Odd(Low(b)) == b && Half(Low(b)) == 0 && !Odd(0) && Half(0) == 0 && Double(0) == 0
    ensures Low(false) == 0 && Xor(Low(true), Low(true)) == 0
  {
  }

  lemma SplitRegister(a: bv32)
    ensures Xor(Low(Odd(a)), Double(Half(a))) == a
  {
  }

  /** A low bit and a doubled narrow register can be told apart again. */
  lemma JoinRegister(b: bool, w: bv32)
    requires Narrow(w)
    ensures Half(Xor(Low(b), Double(w))) == w && Odd(Xor(Low(b), Double(w))) == b
  {
    hide Xor, Half, Double, Odd, Narrow, Low;
    HalfXor(Low(b), Double(w)); OddXor(Low(b), Double(w));
    LowFacts(b); DoubleHalf(w); XorZero(w);
  }

  // ---- Registers of bounded width ----

  /** The bits an `n`-bit register leaves clear. */
  function High(n: nat): bv32 {
    if n == 0 then 0xFFFF_FFFF else Double(High(n - 1))
  }

  predicate Fits(a: bv32, n: nat) {
    a & High(n) == 0
  }

  lemma HighKnown(n: nat)
    requires n <= 31
    ensures High(n) & 0x8000_0000 != 0
  {
    assert High(1) == 0xFFFF_FFFE && High(2) == 0xFFFF_FFFC && High(3) == 0xFFFF_FFF8 && High(4) == 0xFFFF_FFF0;
    assert High(5) == 0xFFFF_FFE0 && High(6) == 0xFFFF_FFC0 && High(7) == 0xFFFF_FF80 && High(8) == 0xFFFF_FF00;
    assert High(9) == 0xFFFF_FE00 && High(10) == 0xFFFF_FC00 && High(11) == 0xFFFF_F800 && High(12) == 0xFFFF_F000;
    assert High(13) == 0xFFFF_E000 && High(14) == 0xFFFF_C000 && High(15) == 0xFFFF_8000 && High(16) == 0xFFFF_0000;
    assert High(17) == 0xFFFE_0000 && High(18) == 0xFFFC_0000 && High(19) == 0xFFF8_0000 && High(20) == 0xFFF0_0000;
    assert High(21) == 0xFFE0_0000 && High(22) == 0xFFC0_0000 && High(23) == 0xFF80_0000 && High(24) == 0xFF00_0000;
    assert High(25) == 0xFE00_0000 && High(26) == 0xFC00_0000 && High(27) == 0xF800_0000 && High(28) == 0xF000_0000;
    assert High(29) == 0xE000_0000 && High(30) == 0xC000_0000 && High(31) == 0x8000_0000;
  }

  lemma NarrowFits(a: bv32, n: nat)
    requires n <= 31 && Fits(a, n)
    ensures Narrow(a)
  {
    HighKnown(n);
    TopClear(a, High(n));
  }

  lemma TopClear(a: bv32, h: bv32)
    requires a & h == 0 && h & 0x8000_0000 != 0
    ensures Narrow(a)
  {
  }

  lemma ZeroFits()
    ensures Fits(0, 0)
  {
  }

  lemma GrowBelow(w: bv32, h: bv32, b: bool)
    requires w & h == 0
    ensures Xor(Low(b), Double(w)) & Double(h) == 0
  {
  }

  lemma GrowFits(w: bv32, n: nat, b: bool)
    requires Fits(w, n)
    ensures Fits(Xor(Low(b), Double(w)), n + 1)
  {
    hide Xor, Low, Double;
    GrowBelow(w, High(n), b);
  }

  // ---- Registers as lists of bits, least significant first ----

  function Word(bits: seq<bool>): bv32 {
    if bits == [] then 0 else Xor(Low(bits[0]), Double(Word(bits[1..])))
  }

  function ZipXor(a: seq<bool>, b: seq<bool>): (r: seq<bool>)
    requires |a| == |b|
    ensures |r| == |a|
  {
    seq(|a|, i requires 0 <= i < |a| => a[i] != b[i])
  }

  lemma {:induction false} WordFits(bits: seq<bool>)
    requires |bits| <= 32
    ensures Fits(Word(bits), |bits|)
  {
    hide Xor, Double, Low, Fits;
    if bits == [] {
      ZeroFits();
    } else {
      WordFits(bits[1..]);
      GrowFits(Word(bits[1..]), |bits| - 1, bits[0]);
    }
  }

  /** The tail of a nonempty list of at most 32 bits is half its register. */
  lemma WordHalf(bits: seq<bool>)
    requires 0 < |bits| <= 32
    ensures Narrow(Word(bits[1..])) && Half(Word(bits)) == Word(bits[1..]) && Odd(Word(bits)) == bits[0]
  {
    hide Xor, Double, Low, Half, Odd, Narrow, Fits;
    WordFits(bits[1..]);
    NarrowFits(Word(bits[1..]), |bits| - 1);
    JoinRegister(bits[0], Word(bits[1..]));
  }

  lemma {:induction false} WordInjective(a: seq<bool>, b: seq<bool>)
    requires |a| == |b| <= 32 && Word(a) == Word(b)
    ensures a == b
  {
    hide Word, Half, Odd, Narrow;
    if a != [] {
      WordHalf(a);
      WordHalf(b);
      WordInjective(a[1..], b[1..]);
      assert a == [a[0]] + a[1..] && b == [b[0]] + b[1..];
    }
  }

  lemma {:induction false} WordZipXor(a: seq<bool>, b: seq<bool>)
    requires |a| == |b|
    ensures Word(ZipXor(a, b)) == Xor(Word(a), Word(b))
  {
    hide Xor, Double, Low;
    if a == [] {
      XorZero(0);
    } else {
      var x, y := Word(a[1..]), Word(b[1..]);
      WordZipXor(a[1..], b[1..]);
      assert ZipXor(a, b)[1..] == ZipXor(a[1..], b[1..]);
      DoubleXor(x, y);
      LowXor(a[0], b[0]);
      XorPairs(Low(a[0]), Double(x), Low(b[0]), Double(y));
    }
  }

  lemma LowXor(b: bool, c: bool)
    ensures Low(b != c) == Xor(Low(b), Low(c))
  {
  }

  lemma {:induction false} WordPadded(bits: seq<bool>)
    ensures Word(bits + [false]) == Word(bits)
  {
    hide Xor, Double, Low;
    if bits == [] {
      LowFacts(false);
      XorZero(0);
      assert ([false] + [])[1..] == [];
      assert bits + [false] == [false];
    } else {
      WordPadded(bits[1..]);
      assert (bits + [false])[1..] == bits[1..] + [false];
    }
  }
}
