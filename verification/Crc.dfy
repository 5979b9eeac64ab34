/** CRC32 (IEEE 802.3): the table-driven loop, its bit-serial meaning, and what it detects. */
module Crc {
  import opened Bytes
  import opened Gf2
  import opened Iteration

  /** The generator polynomial, reversed: bit `j` is the coefficient of x^(31-j). */
  const POLY: bv32 := 0xEDB8_8320
  const INIT: bv32 := 0xFFFF_FFFF

  /** One step of the inner loop of the table generator. */
  function BitStep(r: bv32): bv32 {
    if Odd(r) then Xor(Half(r), POLY) else Half(r)
  }

  function BitSteps(r: bv32, n: nat): bv32 {
    Iter(BitStep, r, n)
  }

  function TableEntry(i: byte): bv32 {
    BitSteps(i as bv32, 8)
  }

  function TableIndex(r: bv32, b: byte): byte {
    ((r ^ (b as bv32)) & 0xFF) as bv8
  }

  function Shift8(r: bv32): bv32 { r >> 8 }

  function TableStep(r: bv32, b: byte): bv32 {
    Xor(Shift8(r), TableEntry(TableIndex(r, b)))
  }

  function Update(r: bv32, data: seq<byte>): bv32
    decreases |data|
  {
    if data == [] then r else Update(TableStep(r, data[0]), data[1..])
  }

  function Complement(r: bv32): bv32 { !r }

  function Crc32(data: seq<byte>): bv32 {
    Complement(Update(INIT, data))
  }

  ghost predicate IsTable(table: seq<bv32>) {
    |table| == 256 && forall i :: 0 <= i < 256 ==> table[i] == TableEntry(Byte(i))
  }

  method MakeTable() returns (table: array<bv32>)
    ensures fresh(table) && IsTable(table[..])
  {
    hide Byte, TableEntry;
    table := new bv32[256](_ => 0);
    var i := 0;
    while i < 256
      invariant 0 <= i <= 256
      invariant forall k :: 0 <= k < i ==> table[k] == TableEntry(Byte(k))
    {
      var crc := Byte(i) as bv32;
      var j := 0;
      StartEntry(Byte(i));
      while j < 8
        invariant 0 <= j <= 8
        invariant BitSteps(crc, 8 - j) == TableEntry(Byte(i))
      {
        if crc & 1 != 0 {
          crc := (crc >> 1) ^ POLY;
        } else {
          crc := crc >> 1;
        }
        j := j + 1;
      }
      table[i] := crc;
      i := i + 1;
    }
  }

  lemma StartEntry(i: byte)
    ensures BitSteps(i as bv32, 8) == TableEntry(i)
  {
  }

  method ComputeCrc32(table: array<bv32>, data: seq<byte>) returns (r: bv32)
    requires IsTable(table[..])
    ensures r == Crc32(data)
  {
    hide Byte, ByteValue, TableEntry, TableIndex, Xor, Shift8, Complement;
    var crc := 0xFFFF_FFFF;
    for k := 0 to |data|
      invariant Update(crc, data[k..]) == Update(INIT, data)
    {
      var index := TableIndex(crc, data[k]);
      ByteOfValue(index);
      assert table[..][ByteValue(index)] == TableEntry(index);
      assert data[k..][1..] == data[k + 1..];
      crc := Xor(Shift8(crc), table[ByteValue(index)]);
    }
    r := Complement(crc);
  }

  // ---- Bit steps are linear and invertible ----

  /** A bit step distributes over XOR: the register is a polynomial over GF(2). */
  lemma StepLinear(x: bv32, y: bv32)
    ensures BitStep(Xor(x, y)) == Xor(BitStep(x), BitStep(y))
  {
    hide Xor, Half, Odd;
    HalfXor(x, y);
    OddXor(x, y);
    var a, b := Half(x), Half(y);
    XorPairs(a, POLY, b, POLY);
    XorZero(POLY);
    XorZero(Xor(a, b));
    XorAssoc(a, b, POLY);
    XorAssoc(a, POLY, b);
    XorComm(b, POLY);
  }

  /** The explicit inverse of `BitStep`: the top bit tells which branch was taken. */
  function UnStep(r: bv32): bv32 {
    if Narrow(r) then Double(r) else Xor(1, Double(Xor(r, POLY)))
  }

  lemma PolyTop(r: bv32)
    requires Narrow(r)
    ensures !Narrow(Xor(r, POLY))
  {
  }

  lemma UnStepInverse(r: bv32)
    ensures UnStep(BitStep(r)) == r
  {
    hide Xor, Half, Odd, Double, Narrow;
    var h := Half(r);
    HalfNarrow(r);
    SplitRegister(r);
    PolyTop(h);
    XorAssoc(h, POLY, POLY);
    XorZero(POLY);
    XorZero(h);
    XorZero(Double(h));
  }

  lemma StepInjective()
    ensures Injective(BitStep)
  {
    hide BitStep, UnStep;
    forall a, b | BitStep(a) == BitStep(b) ensures a == b {
      UnStepInverse(a);
      UnStepInverse(b);
    }
  }

  lemma StepsInjective(x: bv32, y: bv32, n: nat)
    requires BitSteps(x, n) == BitSteps(y, n)
    ensures x == y
  {
    hide BitStep;
    StepInjective();
    IterInjective(BitStep, x, y, n);
  }

  lemma StepsLinear(x: bv32, y: bv32, n: nat)
    ensures BitSteps(Xor(x, y), n) == Xor(BitSteps(x, n), BitSteps(y, n))
  {
    hide BitStep, Xor;
    forall a, b ensures BitStep(Xor(a, b)) == Xor(BitStep(a), BitStep(b)) {
      StepLinear(a, b);
    }
    IterHomomorphic(BitStep, Xor, x, y, n);
  }

  lemma StepsMore(r: bv32, n: nat)
    ensures BitSteps(r, n + 1) == BitSteps(BitStep(r), n) && BitSteps(r, 0) == r
  {
    hide BitStep;
  }

  // ---- Bit-serial form ----

  /** The bits of a message in the order they are transmitted: each byte least significant bit first. */
  function MessageBits(data: seq<byte>): (s: seq<bool>)
    ensures |s| == 8 * |data|
  {
    if data == [] then [] else ByteBits(data[0]) + MessageBits(data[1..])
  }

  /** The shift register fed one message bit at a time. */
  function Serial(r: bv32, bits: seq<bool>): bv32
    decreases |bits|
  {
    if bits == [] then r else Serial(BitStep(Xor(r, Low(bits[0]))), bits[1..])
  }

  lemma {:induction false} SerialConcat(r: bv32, s: seq<bool>, t: seq<bool>)
    ensures Serial(r, s + t) == Serial(Serial(r, s), t)
    decreases |s|
  {
    hide BitStep, Xor, Low;
    if s == [] {
      assert s + t == t;
    } else {
      assert (s + t)[1..] == s[1..] + t;
      SerialConcat(BitStep(Xor(r, Low(s[0]))), s[1..], t);
    }
  }

  /** XOR-ing a shifted word in before a step is XOR-ing the word in after it. */
  lemma StepFeeds(r: bv32, w: bv32)
    requires Narrow(w)
    ensures BitStep(Xor(r, Double(w))) == Xor(BitStep(r), w)
  {
    hide Xor, Double, Half, Odd, Narrow;
    StepEven(w);
    StepLinear(r, Double(w));
  }

  lemma StepEven(w: bv32)
    requires Narrow(w)
    ensures BitStep(Double(w)) == w
  {
    hide Xor, Double, Half, Odd, Narrow;
    DoubleHalf(w);
  }

  /** Up to 32 message bits can be XOR-ed into the register at once. */
  lemma {:induction false} SerialIsSteps(r: bv32, bits: seq<bool>)
    requires |bits| <= 32
    ensures Serial(r, bits) == BitSteps(Xor(r, Word(bits)), |bits|)
    decreases |bits|
  {
    hide BitStep, BitSteps, Xor, Low, Double, Half, Odd, Narrow;
    if bits == [] {
      XorZero(r);
      StepsMore(r, 0);
    } else {
      var w, l := Word(bits[1..]), Low(bits[0]);
      SerialIsSteps(BitStep(Xor(r, l)), bits[1..]);
      WordHalf(bits);
      StepFeeds(Xor(r, l), w);
      XorAssoc(r, l, Double(w));
      StepsMore(Xor(r, Word(bits)), |bits| - 1);
    }
  }

  /** The register before a message can be recovered from the register after it. */
  lemma {:induction false} SerialInjective(r1: bv32, r2: bv32, bits: seq<bool>)
    requires Serial(r1, bits) == Serial(r2, bits)
    ensures r1 == r2
    decreases |bits|
  {
    hide BitStep, Xor, Low;
    if bits != [] {
      var l := Low(bits[0]);
      SerialInjective(BitStep(Xor(r1, l)), BitStep(Xor(r2, l)), bits[1..]);
      StepInjective();
      XorComm(r1, l);
      XorComm(r2, l);
      XorCancel(l, r1, r2);
    }
  }

  /** From one register, two different bursts of at most 32 bits never lead to the same register. */
  lemma SerialBurst(r: bv32, a: seq<bool>, b: seq<bool>)
    requires |a| == |b| <= 32 && Serial(r, a) == Serial(r, b)
    ensures a == b
  {
    hide BitSteps, Xor, Word, Serial;
    SerialIsSteps(r, a);
    SerialIsSteps(r, b);
    StepsInjective(Xor(r, Word(a)), Xor(r, Word(b)), |a|);
    XorCancel(r, Word(a), Word(b));
    WordInjective(a, b);
  }
}
