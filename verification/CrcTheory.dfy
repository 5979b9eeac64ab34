/** What CRC32 means: agreement with polynomial division, burst detection, and the residue. */
module CrcTheory {
  import opened Bytes
  import opened Gf2
  import opened Crc

  // ---- The table-driven loop computes the bit-serial register ----

  function High24(x: bv32): bv32 { x & 0xFFFF_FF00 }

  predicate Clear8(x: bv32) { x & 0xFF == 0 }

  lemma SplitLow(r: bv32, b: byte)
    ensures Xor(r, b as bv32) == Xor(High24(Xor(r, b as bv32)), TableIndex(r, b) as bv32)
    ensures Shift8(High24(Xor(r, b as bv32))) == Shift8(r) && Clear8(High24(Xor(r, b as bv32)))
  {
  }

  lemma LowByteClear(h: bv32)
    requires Clear8(h)
    ensures BitStep(h) == h >> 1 && BitStep(h >> 1) == h >> 2 && BitStep(h >> 2) == h >> 3
    ensures BitStep(h >> 3) == h >> 4 && BitStep(h >> 4) == h >> 5 && BitStep(h >> 5) == h >> 6
    ensures BitStep(h >> 6) == h >> 7 && BitStep(h >> 7) == Shift8(h)
  {
  }

  lemma EightSteps(a: bv32, b: bv32, c: bv32, d: bv32, e: bv32, f: bv32, g: bv32, h: bv32, i: bv32)
    requires BitStep(a) == b && BitStep(b) == c && BitStep(c) == d && BitStep(d) == e
    requires BitStep(e) == f && BitStep(f) == g && BitStep(g) == h && BitStep(h) == i
    ensures BitSteps(a, 8) == i
  {
    hide BitStep, BitSteps;
    StepsMore(a, 7); StepsMore(b, 6); StepsMore(c, 5); StepsMore(d, 4);
    StepsMore(e, 3); StepsMore(f, 2); StepsMore(g, 1); StepsMore(h, 0); StepsMore(i, 0);
  }

  /** Eight steps over a register whose low byte is clear only shift it. */
  lemma StepsShift8(h: bv32)
    requires Clear8(h)
    ensures BitSteps(h, 8) == Shift8(h)
  {
    hide BitStep, BitSteps, Shift8, Clear8;
    LowByteClear(h);
    EightSteps(h, h >> 1, h >> 2, h >> 3, h >> 4, h >> 5, h >> 6, h >> 7, Shift8(h));
  }

  /** One table lookup is eight bit steps. */
  lemma TableStepIsEightSteps(r: bv32, b: byte)
    ensures TableStep(r, b) == BitSteps(Xor(r, b as bv32), 8)
  {
    hide BitSteps, Xor, TableIndex, Shift8, High24, Clear8;
    var h := High24(Xor(r, b as bv32));
    SplitLow(r, b);
    StepsLinear(h, TableIndex(r, b) as bv32, 8);
    StepsShift8(h);
  }

  lemma WordAt(c: seq<bool>, i: nat)
    requires i < |c|
    ensures Word(c[i..]) == Xor(Low(c[i]), Double(Word(c[i + 1..])))
  {
    hide Xor, Low, Double;
    assert c[i..][1..] == c[i + 1..];
  }

  function Shl8(w: bv32): bv32 { w << 8 }

  lemma Reassemble(b: byte, w: bv32)
    ensures Xor(Low(b & 1 != 0), Double(Xor(Low(b & 2 != 0), Double(Xor(Low(b & 4 != 0), Double(
            Xor(Low(b & 8 != 0), Double(Xor(Low(b & 16 != 0), Double(Xor(Low(b & 32 != 0), Double(
            Xor(Low(b & 64 != 0), Double(Xor(Low(b & 128 != 0), Double(w)))))))))))))))) == Xor(b as bv32, Shl8(w))
  {
  }

  /** A byte followed by more bits, as one register. */
  lemma WordOfByte(b: byte, rest: seq<bool>)
    ensures Word(ByteBits(b) + rest) == Xor(b as bv32, Shl8(Word(rest)))
  {
    hide Xor, Low, Double, Word, Shl8;
    var c := ByteBits(b) + rest;
    WordAt(c, 0); WordAt(c, 1); WordAt(c, 2); WordAt(c, 3); WordAt(c, 4); WordAt(c, 5); WordAt(c, 6); WordAt(c, 7);
    assert c[0..] == c && c[8..] == rest;
    Reassemble(b, Word(rest));
  }

  lemma ShlZero()
    ensures Shl8(0) == 0
  {
  }

  lemma WordOfOneByte(b: byte)
    ensures Word(ByteBits(b)) == b as bv32
  {
    hide Xor, Shl8;
    WordOfByte(b, []);
    assert ByteBits(b) + [] == ByteBits(b);
    XorZero(b as bv32);
    ShlZero();
  }

  /** The table-driven loop over bytes computes the bit-serial register over their bits. */
  lemma {:induction false} UpdateIsSerial(r: bv32, data: seq<byte>)
    ensures Update(r, data) == Serial(r, MessageBits(data))
    decreases |data|
  {
    hide TableStep, BitSteps, Serial, Xor, Word, ByteBits;
    if data == [] {
      SerialNil(r);
    } else {
      TableStepIsEightSteps(r, data[0]);
      SerialIsSteps(r, ByteBits(data[0]));
      WordOfOneByte(data[0]);
      SerialConcat(r, ByteBits(data[0]), MessageBits(data[1..]));
      UpdateIsSerial(TableStep(r, data[0]), data[1..]);
    }
  }

  lemma SerialNil(r: bv32)
    ensures Serial(r, []) == r
  {
  }

  lemma {:induction false} UpdateConcat(r: bv32, s: seq<byte>, t: seq<byte>)
    ensures Update(r, s + t) == Update(Update(r, s), t)
    decreases |s|
  {
    hide TableStep;
    if s == [] {
      assert s + t == t;
    } else {
      assert (s + t)[1..] == s[1..] + t;
      UpdateConcat(TableStep(r, s[0]), s[1..], t);
    }
  }

  // ---- Four bytes as one register ----

  lemma WordOfFour(a: byte, b: byte, c: byte, d: byte)
    ensures Word(MessageBits([a, b, c, d]))
            == Xor(a as bv32, Shl8(Xor(b as bv32, Shl8(Xor(c as bv32, Shl8(d as bv32))))))
  {
    hide Word, Xor, Shl8, ByteBits;
    assert MessageBits([d]) == ByteBits(d) by { assert [d][1..] == []; }
    WordOfOneByte(d);
    assert [c, d][1..] == [d] && [b, c, d][1..] == [c, d] && [a, b, c, d][1..] == [b, c, d];
    WordOfByte(c, MessageBits([d]));
    WordOfByte(b, MessageBits([c, d]));
    WordOfByte(a, MessageBits([b, c, d]));
  }

  lemma SplitWord(x: bv32)
    ensures var d := (x >> 24) as bv8;
            Xor(((x & 0xFF) as bv8) as bv32, Shl8(Xor((((x >> 8) & 0xFF) as bv8) as bv32,
            Shl8(Xor((((x >> 16) & 0xFF) as bv8) as bv32, Shl8(d as bv32)))))) == x
  {
  }

  /** The transmitted bits of a little-endian word are the bits of the word. */
  lemma WordOfLeBits(x: bv32)
    ensures Word(MessageBits(LeBits32(x))) == x
  {
    hide Word, Xor, Shl8, MessageBits;
    WordOfFour((x & 0xFF) as bv8, ((x >> 8) & 0xFF) as bv8, ((x >> 16) & 0xFF) as bv8, (x >> 24) as bv8);
    SplitWord(x);
  }

  // ---- Polynomial division (IEEE 802.3, section 3.2.9) ----

  /** The generator x^32 + x^26 + x^23 + x^22 + x^16 + x^12 + x^11 + x^10 + x^8 + x^7 + x^5 + x^4 + x^2 + x + 1. */
  predicate InGenerator(e: nat) {
    e == 32 || e == 26 || e == 23 || e == 22 || e == 16 || e == 12 || e == 11 || e == 10
    || e == 8 || e == 7 || e == 5 || e == 4 || e == 2 || e == 1 || e == 0
  }

  /** Generator coefficients below x^32, highest power first. */
  function GeneratorTail(): (g: seq<bool>)
    ensures |g| == 32
  {
    seq(32, i requires 0 <= i < 32 => InGenerator(31 - i))
  }

  function Falses(n: nat): (s: seq<bool>)
    ensures |s| == n
  {
    seq(n, _ => false)
  }

  /**
   * Remainder of a polynomial, highest power first, on division by the generator: cancel the
   * leading coefficient, if it is set, and move on.
   */
  function Remainder(p: seq<bool>): (r: seq<bool>)
    ensures |r| == if |p| <= 32 then |p| else 32
    decreases |p|
  {
    if |p| <= 32 then p
    else if p[0] then Remainder(ZipXor(p[1..], GeneratorTail() + Falses(|p| - 33)))
    else Remainder(p[1..])
  }

  /** The dividend when the register's bits `v` are added to the next 32 coefficients. */
  function Dividend(v: seq<bool>, bits: seq<bool>): (p: seq<bool>)
    requires |v| == 32
    ensures |p| == |bits| + 32
  {
    ZipXor(bits + Falses(32), v + Falses(|bits|))
  }

  /** The list form of one register step. */
  function NextBits(v: seq<bool>, b: bool): (r: seq<bool>)
    requires |v| == 32
    ensures |r| == 32
  {
    var shifted := v[1..] + [false];
    if v[0] != b then ZipXor(shifted, GeneratorTail()) else shifted
  }

  lemma BytesOfPoly()
    ensures LeBits32(POLY) == [0x20, 0x83, 0xB8, 0xED] && LeBits32(INIT) == [0xFF, 0xFF, 0xFF, 0xFF]
  {
  }

  lemma BitsOfFour(a: byte, b: byte, c: byte, d: byte)
    ensures MessageBits([a, b, c, d]) == ByteBits(a) + ByteBits(b) + ByteBits(c) + ByteBits(d)
  {
    hide ByteBits;
    assert [d][1..] == [] && [c, d][1..] == [d] && [b, c, d][1..] == [c, d] && [a, b, c, d][1..] == [b, c, d];
    assert MessageBits([]) == [];
    assert MessageBits([d]) == ByteBits(d) + [];
    assert MessageBits([c, d]) == ByteBits(c) + ByteBits(d);
    assert MessageBits([b, c, d]) == ByteBits(b) + (ByteBits(c) + ByteBits(d));
    assert MessageBits([a, b, c, d]) == ByteBits(a) + (ByteBits(b) + (ByteBits(c) + ByteBits(d)));
  }

  lemma BitsOfPolyBytes()
    ensures ByteBits(0x20) == [false, false, false, false, false, true, false, false]
    ensures ByteBits(0x83) == [true, true, false, false, false, false, false, true]
    ensures ByteBits(0xB8) == [false, false, false, true, true, true, false, true]
    ensures ByteBits(0xED) == [true, false, true, true, false, true, true, true]
    ensures ByteBits(0xFF) == [true, true, true, true, true, true, true, true]
  {
  }

  /** The reversed constant is the generator of IEEE 802.3. */
  lemma GeneratorIsPoly()
    ensures Word(GeneratorTail()) == POLY
  {
    hide Word, ByteBits, LeBits32;
    BytesOfPoly();
    BitsOfFour(0x20, 0x83, 0xB8, 0xED);
    BitsOfPolyBytes();
    assert GeneratorTail() == MessageBits([0x20, 0x83, 0xB8, 0xED]);
    WordOfLeBits(POLY);
  }

  lemma NextBitsIsStep(v: seq<bool>, b: bool)
    requires |v| == 32
    ensures Word(NextBits(v, b)) == BitStep(Xor(Word(v), Low(b)))
  {
    hide Word, Xor, Low, Half, Odd, Narrow, GeneratorTail;
    WordHalf(v);
    WordPadded(v[1..]);
    HalfXor(Word(v), Low(b)); OddXor(Word(v), Low(b)); LowFacts(b); XorZero(Word(v[1..]));
    WordZipXor(v[1..] + [false], GeneratorTail());
    GeneratorIsPoly();
  }

  /** The first step of a division: what is left to divide. */
  lemma DividendStep(v: seq<bool>, bits: seq<bool>)
    requires |v| == 32 && bits != []
    ensures var p, next := Dividend(v, bits), Dividend(NextBits(v, bits[0]), bits[1..]);
            next == if p[0] then ZipXor(p[1..], GeneratorTail() + Falses(|p| - 33)) else p[1..]
  {
    hide GeneratorTail;
    var p, next := Dividend(v, bits), Dividend(NextBits(v, bits[0]), bits[1..]);
    assert p[0] == (v[0] != bits[0]);
    if p[0] {
      assert ZipXor(p[1..], GeneratorTail() + Falses(|p| - 33)) == next;
    } else {
      assert p[1..] == next;
    }
  }

  /** Division of the shifted message by the generator runs in step with the shift register. */
  lemma {:induction false} DivisionIsSerial(v: seq<bool>, bits: seq<bool>)
    requires |v| == 32
    ensures Word(Remainder(Dividend(v, bits))) == Serial(Word(v), bits)
    decreases |bits|
  {
    hide Word, Xor, Low, BitStep, GeneratorTail;
    if bits == [] {
      assert Dividend(v, bits) == v;
    } else {
      hide ZipXor, NextBits, Dividend, Falses;
      NextBitsIsStep(v, bits[0]);
      DivisionIsSerial(NextBits(v, bits[0]), bits[1..]);
      DividendStep(v, bits);
    }
  }

  function Trues(n: nat): (s: seq<bool>)
    ensures |s| == n
  {
    seq(n, _ => true)
  }

  lemma TruesIsInit()
    ensures Word(Trues(32)) == INIT
  {
    hide Word, ByteBits, LeBits32;
    BytesOfPoly();
    BitsOfFour(0xFF, 0xFF, 0xFF, 0xFF);
    BitsOfPolyBytes();
    assert Trues(32) == MessageBits([0xFF, 0xFF, 0xFF, 0xFF]);
    WordOfLeBits(INIT);
  }

  /**
   * CRC32 as the standard defines it: the first 32 bits of the message times x^32 complemented,
   * divided by the generator, and the remainder complemented.
   */
  lemma CrcIsDivision(data: seq<byte>)
    ensures Crc32(data) == Complement(Word(Remainder(Dividend(Trues(32), MessageBits(data)))))
  {
    hide Word, Serial, Update, Remainder, Complement;
    UpdateIsSerial(INIT, data);
    TruesIsInit();
    DivisionIsSerial(Trues(32), MessageBits(data));
  }

  // ---- Burst errors ----

  lemma {:induction false} MessageBitsInjective(a: seq<byte>, b: seq<byte>)
    requires |a| == |b| && MessageBits(a) == MessageBits(b)
    ensures a == b
  {
    if a != [] {
      var x, y := MessageBits(a), MessageBits(b);
      assert ByteBits(a[0]) == x[..8] == y[..8] == ByteBits(b[0]);
      assert MessageBits(a[1..]) == x[8..] == y[8..] == MessageBits(b[1..]);
      SameByte(a[0], b[0]);
      MessageBitsInjective(a[1..], b[1..]);
      assert a == [a[0]] + a[1..] && b == [b[0]] + b[1..];
    }
  }

  lemma SameByte(x: byte, y: byte)
    requires ByteBits(x) == ByteBits(y)
    ensures x == y
  {
    hide ByteBits;
    ByteOfValue(x);
    ByteOfValue(y);
  }

  /** `a` and `b` agree on every transmitted bit outside the `width` bits from `k`. */
  ghost predicate AgreeOutside<T>(a: seq<T>, b: seq<T>, k: nat, width: nat) {
    && |a| == |b|
    && forall i :: 0 <= i < |a| && !(k <= i < k + width) ==> a[i] == b[i]
  }

  /** Every burst error of at most 32 bits changes the CRC. */
  lemma BurstDetected(a: seq<byte>, b: seq<byte>, k: nat)
    requires a != b && |a| == |b| && AgreeOutside(MessageBits(a), MessageBits(b), k, 32)
    ensures Crc32(a) != Crc32(b)
  {
    hide MessageBits, Serial, Update;
    var x, y := MessageBits(a), MessageBits(b);
    UpdateIsSerial(INIT, a);
    UpdateIsSerial(INIT, b);
    if Serial(INIT, x) == Serial(INIT, y) {
      BurstSerial(INIT, x, y, k);
      MessageBitsInjective(a, b);
    }
    hide Complement;
    ComplementInjective(Update(INIT, a), Update(INIT, b));
  }

  lemma ComplementInjective(x: bv32, y: bv32)
    ensures Complement(x) == Complement(y) ==> x == y
  {
  }

  lemma BurstSerial(r: bv32, x: seq<bool>, y: seq<bool>, k: nat)
    requires AgreeOutside(x, y, k, 32) && Serial(r, x) == Serial(r, y)
    ensures x == y
  {
    hide Serial;
    if k < |x| {
      var e := if k + 32 <= |x| then k + 32 else |x|;
      var p, wx, wy, s := x[..k], x[k..e], y[k..e], x[e..];
      assert x == p + wx + s && y == p + wy + s;
      SerialConcat(r, p + wx, s); SerialConcat(r, p, wx);
      SerialConcat(r, p + wy, s); SerialConcat(r, p, wy);
      SerialInjective(Serial(r, p + wx), Serial(r, p + wy), s);
      SerialBurst(Serial(r, p), wx, wy);
    }
  }

  lemma {:induction false} MessageBitAt(data: seq<byte>, i: nat)
    requires i < 8 * |data|
    ensures MessageBits(data)[i] == ByteBits(data[i / 8])[i % 8]
  {
    hide ByteBits;
    if i >= 8 {
      MessageBitAt(data[1..], i - 8);
    }
  }

  /** Damage inside four consecutive bytes is a burst of at most 32 bits. */
  lemma WindowIsBurst(a: seq<byte>, b: seq<byte>, k: nat)
    requires AgreeOutside(a, b, k, 4)
    ensures AgreeOutside(MessageBits(a), MessageBits(b), 8 * k, 32)
  {
    var x, y := MessageBits(a), MessageBits(b);
    forall i | 0 <= i < |x| && !(8 * k <= i < 8 * k + 32) ensures x[i] == y[i] {
      MessageBitAt(a, i);
      MessageBitAt(b, i);
    }
  }

  /** Two messages that differ only inside four consecutive bytes have different CRCs. */
  lemma FourByteWindow(a: seq<byte>, b: seq<byte>, k: nat)
    requires a != b && AgreeOutside(a, b, k, 4)
    ensures Crc32(a) != Crc32(b)
  {
    WindowIsBurst(a, b, k);
    BurstDetected(a, b, 8 * k);
  }

  // ---- The residue ----

  /** Register left by any message followed by its own CRC. */
  const RESIDUE: bv32 := 0xDEBB_20E3

  lemma ResidueSteps0()
    ensures BitSteps(0xFFFF_FFFF, 32) == BitSteps(0x2DFD_1072, 24)
  {
    StepsMore(0xFFFF_FFFF, 31);
    StepsMore(0x9247_7CDF, 30);
    StepsMore(0xA49B_3D4F, 29);
    StepsMore(0xBFF5_1D87, 28);
    StepsMore(0xB242_0DE3, 27);
    StepsMore(0xB499_85D1, 26);
    StepsMore(0xB7F4_41C8, 25);
    StepsMore(0x5BFA_20E4, 24);
  }

  lemma ResidueSteps1()
    ensures BitSteps(0x2DFD_1072, 24) == BitSteps(0xBE26_ED00, 16)
  {
    StepsMore(0x2DFD_1072, 23);
    StepsMore(0x16FE_8839, 22);
    StepsMore(0xE6C7_C73C, 21);
    StepsMore(0x7363_E39E, 20);
    StepsMore(0x39B1_F1CF, 19);
    StepsMore(0xF160_7BC7, 18);
    StepsMore(0x9508_BEC3, 17);
    StepsMore(0xA73C_DC41, 16);
  }

  lemma ResidueSteps2()
    ensures BitSteps(0xBE26_ED00, 16) == BitSteps(0x00BE_26ED, 8)
  {
    StepsMore(0xBE26_ED00, 15);
    StepsMore(0x5F13_7680, 14);
    StepsMore(0x2F89_BB40, 13);
    StepsMore(0x17C4_DDA0, 12);
    StepsMore(0x0BE2_6ED0, 11);
    StepsMore(0x05F1_3768, 10);
    StepsMore(0x02F8_9BB4, 9);
    StepsMore(0x017C_4DDA, 8);
  }

  lemma ResidueSteps3()
    ensures BitSteps(0x00BE_26ED, 8) == BitSteps(0xDEBB_20E3, 0)
  {
    StepsMore(0x00BE_26ED, 7);
    StepsMore(0xEDE7_9056, 6);
    StepsMore(0x76F3_C82B, 5);
    StepsMore(0xD6C1_6735, 4);
    StepsMore(0x86D8_30BA, 3);
    StepsMore(0x436C_185D, 2);
    StepsMore(0xCC0E_8F0E, 1);
    StepsMore(0x6607_4787, 0);
  }

  lemma Residue()
    ensures BitSteps(0xFFFF_FFFF, 32) == RESIDUE
  {
    hide BitSteps;
    ResidueSteps0();
    ResidueSteps1();
    ResidueSteps2();
    ResidueSteps3();
    StepsMore(RESIDUE, 0);
  }

  lemma UpdateWord(r: bv32, x: bv32)
    ensures Update(r, LeBits32(x)) == BitSteps(Xor(r, x), 32)
  {
    hide Word, Xor, BitSteps, Serial, Update, MessageBits, LeBits32;
    UpdateIsSerial(r, LeBits32(x));
    SerialIsSteps(r, MessageBits(LeBits32(x)));
    WordOfLeBits(x);
  }

  lemma XorComplement(r: bv32)
    ensures Xor(r, Complement(r)) == 0xFFFF_FFFF
  {
  }

  /** CRC of any message that ends in its own CRC. */
  const SEALED: bv32 := 0x2144_DF1C

  lemma SealedIsResidue()
    ensures Complement(RESIDUE) == SEALED
  {
  }

  /** A message ends in its own CRC exactly when the CRC of the whole is one fixed constant. */
  lemma SealedCheck(data: seq<byte>, x: bv32)
    ensures Crc32(data) == x <==> Crc32(data + LeBits32(x)) == SEALED
  {
    hide Xor, BitSteps, Update, LeBits32, Complement;
    var r := Update(INIT, data);
    var s := Update(INIT, data + LeBits32(x));
    UpdateConcat(INIT, data, LeBits32(x));
    UpdateWord(r, x);
    Residue();
    SealedIsResidue();
    XorComplement(r);
    ComplementInjective(s, RESIDUE);
    if s == RESIDUE {
      StepsInjective(Xor(r, x), 0xFFFF_FFFF, 32);
      XorCancel(r, x, Complement(r));
    }
  }

  lemma SealedRegister(data: seq<byte>)
    requires Crc32(data) == SEALED
    ensures Update(INIT, data) == RESIDUE
  {
    hide Update, Complement;
    SealedIsResidue();
    ComplementInjective(Update(INIT, data), RESIDUE);
  }

  lemma CheckByte(r: bv32, m: seq<byte>, k: nat, c0: bv32, c1: bv32, c2: bv32, c3: bv32,
                  c4: bv32, c5: bv32, c6: bv32, c7: bv32, c8: bv32)
    requires k < |m| && Xor(r, m[k] as bv32) == c0
    requires BitStep(c0) == c1 && BitStep(c1) == c2 && BitStep(c2) == c3 && BitStep(c3) == c4
    requires BitStep(c4) == c5 && BitStep(c5) == c6 && BitStep(c6) == c7 && BitStep(c7) == c8
    ensures Update(r, m[k..]) == Update(c8, m[k + 1..])
  {
    hide BitStep, BitSteps, Xor, TableStep;
    TableStepIsEightSteps(r, m[k]);
    EightSteps(c0, c1, c2, c3, c4, c5, c6, c7, c8);
    assert m[k..][1..] == m[k + 1..];
  }

  const DIGITS: seq<byte> := [0x31, 0x32, 0x33, 0x34, 0x35, 0x36, 0x37, 0x38, 0x39]

  lemma CheckDigits0(m: seq<byte>)
    requires m == DIGITS
    ensures Update(INIT, m[0..]) == Update(0x77B7_9C2D, m[3..])
  {
    hide Update;
    CheckByte(INIT, m, 0, 0xFFFF_FFCE, 0x7FFF_FFE7, 0xD247_7CD3, 0x849B_3D49,
              0xAFF5_1D84, 0x57FA_8EC2, 0x2BFD_4761, 0xF846_2090, 0x7C23_1048);
    CheckByte(0x7C23_1048, m, 1, 0x7C23_107A, 0x3E11_883D, 0xF2B0_473E, 0x7958_239F,
              0xD114_92EF, 0x8532_CA57, 0xAF21_E60B, 0xBA28_7025, 0xB0AC_BB32);
    CheckByte(0xB0AC_BB32, m, 2, 0xB0AC_BB01, 0xB5EE_DEA0, 0x5AF7_6F50, 0x2D7B_B7A8,
              0x16BD_DBD4, 0x0B5E_EDEA, 0x05AF_76F5, 0xEF6F_385A, 0x77B7_9C2D);
  }

  lemma CheckDigits1(m: seq<byte>)
    requires m == DIGITS
    ensures Update(0x77B7_9C2D, m[3..]) == Update(0xF68D_2C9E, m[6..])
  {
    hide Update;
    CheckByte(0x77B7_9C2D, m, 3, 0x77B7_9C19, 0xD663_4D2C, 0x6B31_A696, 0x3598_D34B,
              0xF774_EA85, 0x9602_F662, 0x4B01_7B31, 0xC838_3EB8, 0x641C_1F5C);
    CheckByte(0x641C_1F5C, m, 4, 0x641C_1F69, 0xDFB6_8C94, 0x6FDB_464A, 0x37ED_A325,
              0xF64E_52B2, 0x7B27_2959, 0xD02B_178C, 0x6815_8BC6, 0x340A_C5E3);
    CheckByte(0x340A_C5E3, m, 5, 0x340A_C5D5, 0xF7BD_E1CA, 0x7BDE_F0E5, 0xD057_FB52,
              0x682B_FDA9, 0xD9AD_7DF4, 0x6CD6_BEFA, 0x366B_5F7D, 0xF68D_2C9E);
  }

  lemma CheckDigits2(m: seq<byte>)
    requires m == DIGITS
    ensures Update(0xF68D_2C9E, m[6..]) == Update(0x340B_C6D9, m[9..])
  {
    hide Update;
    CheckByte(0xF68D_2C9E, m, 6, 0xF68D_2CA9, 0x96FE_1574, 0x4B7F_0ABA, 0x25BF_855D,
              0xFF67_418E, 0x7FB3_A0C7, 0xD261_5343, 0x8488_2A81, 0xAFFC_9660);
    CheckByte(0xAFFC_9660, m, 7, 0xAFFC_9658, 0x57FE_4B2C, 0x2BFF_2596, 0x15FF_92CB,
              0xE747_4A45, 0x9E1B_2602, 0x4F0D_9301, 0xCA3E_4AA0, 0x651F_2550);
    CheckByte(0x651F_2550, m, 8, 0x651F_2569, 0xDF37_1194, 0x6F9B_88CA, 0x37CD_C465,
              0xF65E_6112, 0x7B2F_3089, 0xD02F_1B64, 0x6817_8DB2, 0x340B_C6D9);
  }

  /** The published check value, the CRC of the digits "123456789", and the CRC of nothing. */
  lemma CheckValue()
    ensures Crc32(DIGITS) == 0xCBF4_3926 && Crc32([]) == 0
  {
    hide Update, Complement;
    var m := DIGITS;
    assert m[0..] == m && m[9..] == [];
    CheckDigits0(m);
    CheckDigits1(m);
    CheckDigits2(m);
    NothingUpdated(0x340B_C6D9);
    NothingUpdated(INIT);
    Complements();
  }

  lemma Complements()
    ensures Complement(0x340B_C6D9) == 0xCBF4_3926 && Complement(INIT) == 0
  {
  }

  lemma NothingUpdated(r: bv32)
    ensures Update(r, []) == r
  {
  }
}
