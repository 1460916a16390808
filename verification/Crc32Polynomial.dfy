/** What the checksum means: section 8.1.1.6.2 of ITU-T V.42, the frame check sequence as the complement
    of a remainder of polynomials over GF(2). A polynomial is the set of the exponents whose coefficient is one. */
module Crc32Polynomial {
  import opened Gf2Words
  import opened Crc32Register
  import opened Crc32Tables
  import opened Crc32Bytewise

  type Poly = set<nat>

  /** x^32+x^26+x^23+x^22+x^16+x^12+x^11+x^10+x^8+x^7+x^5+x^4+x^2+x+1 */
  const GENERATOR: Poly := {32, 26, 23, 22, 16, 12, 11, 10, 8, 7, 5, 4, 2, 1, 0}

  /** x^31 + ... + 1 */
  const ALL_ONES: Poly := {
    31, 30, 29, 28, 27, 26, 25, 24, 23, 22, 21, 20, 19, 18, 17, 16,
    15, 14, 13, 12, 11, 10, 9, 8, 7, 6, 5, 4, 3, 2, 1, 0
  }

  function Add(p: Poly, q: Poly): Poly {
    (p - q) + (q - p)
  }

  /** Multiply by x^k. */
  function Shift(k: nat, p: Poly): Poly {
    set e | e in p :: e + k
  }

  /** The polynomial of a bit string, first bit first. */
  function Message(bits: seq<bool>): Poly {
    if bits == [] then {}
    else Add(Shift(1, Message(bits[..|bits| - 1])), if bits[|bits| - 1] then {0} else {})
  }

  /** A quotient, as a bit string, times the generator. */
  function Times(quotient: seq<bool>): Poly {
    if quotient == [] then {}
    else Add(Shift(1, Times(quotient[..|quotient| - 1])), if quotient[|quotient| - 1] then GENERATOR else {})
  }

  predicate BitAt(x: bv32, i: nat) {
    Odd(Lowered(i, x))
  }

  /** The low bit of a register is the coefficient of x^31. */
  predicate Coefficient(x: bv32, e: nat) {
    e < 32 && BitAt(x, 31 - e)
  }

  /** The register read as a polynomial. */
  function Register(x: bv32): Poly {
    set e: nat | e < 32 && Coefficient(x, e)
  }

  // ----- the register and its polynomial -----

  lemma {:induction false} LoweredLinear(n: nat, x: bv32, y: bv32)
    ensures Lowered(n, Xor(x, y)) == Xor(Lowered(n, x), Lowered(n, y))
  {
    hide Xor, Half;
    if n != 0 {
      HalfLinear(x, y);
      LoweredLinear(n - 1, Half(x), Half(y));
    }
  }

  lemma RegisterXor(x: bv32, y: bv32)
    ensures Register(Xor(x, y)) == Add(Register(x), Register(y))
  {
    hide Xor, Odd, Lowered;
    forall e: nat | e < 32
      ensures Coefficient(Xor(x, y), e) <==> Coefficient(x, e) != Coefficient(y, e)
    {
      LoweredLinear(31 - e, x, y);
      OddLinear(Lowered(31 - e, x), Lowered(31 - e, y));
    }
  }

  lemma ZeroIsEven()
    ensures !Odd(0)
  {
  }

  lemma RegisterHalf(x: bv32)
    ensures Register(Half(x)) == Shift(1, Register(x)) - {32}
  {
    hide Odd, Half;
    forall e: nat | e < 32
      ensures Coefficient(Half(x), e) <==> e != 0 && Coefficient(x, e - 1)
    {
      assert Lowered(32 - e, x) == Lowered(31 - e, Half(x));
      if e == 0 {
        LoweredVanishes(x);
        ZeroIsEven();
      }
    }
    forall e: nat | e in Shift(1, Register(x)) - {32}
      ensures e != 0 && Coefficient(x, e - 1) && e < 32
    {
    }
    forall e: nat | e < 32 && Coefficient(Half(x), e)
      ensures e in Shift(1, Register(x))
    {
      assert e - 1 in Register(x);
    }
  }

  /** Four bits of x at once, from c, what is left of x after i bits. */
  lemma FourBits(x: bv32, i: nat, c: bv32, rest: bv32)
    requires c == Lowered(i, x) && rest == c >> 4
    ensures BitAt(x, i) <==> c & 1 == 1
    ensures BitAt(x, i + 1) <==> c & 2 == 2
    ensures BitAt(x, i + 2) <==> c & 4 == 4
    ensures BitAt(x, i + 3) <==> c & 8 == 8
    ensures Lowered(i + 4, x) == rest
  {
    hide Lowered;
    LoweredAdd(i, 1, x);
    LoweredAdd(i, 2, x);
    LoweredAdd(i, 3, x);
    LoweredAdd(i, 4, x);
    FourHalves(c);
  }

  lemma FourHalves(c: bv32)
    ensures Odd(c) <==> c & 1 == 1
    ensures Odd(Lowered(1, c)) <==> c & 2 == 2
    ensures Odd(Lowered(2, c)) <==> c & 4 == 4
    ensures Odd(Lowered(3, c)) <==> c & 8 == 8
    ensures Lowered(4, c) == c >> 4
  {
    LoweredIsShift(c);
  }

  lemma LoweredIsShift(c: bv32)
    ensures Lowered(1, c) == c >> 1
    ensures Lowered(2, c) == c >> 2
    ensures Lowered(3, c) == c >> 3
    ensures Lowered(4, c) == c >> 4
  {
    assert Lowered(1, c >> 1) == c >> 2;
    assert Lowered(2, c >> 1) == c >> 3;
    assert Lowered(1, c >> 2) == c >> 3;
    assert Lowered(1, c >> 3) == c >> 4;
    assert Lowered(2, c >> 2) == c >> 4;
    assert Lowered(3, c >> 1) == c >> 4;
  }

  /** The constant of the source is the standard's generator, without its leading term. */
  lemma RegisterGenerator()
    ensures Register(POLYNOMIAL) == GENERATOR - {32}
  {
    hide Odd, Lowered, BitAt;
    LoweredNone(POLYNOMIAL);
    FourBits(POLYNOMIAL, 0, 0xEDB88320, 0xEDB8832);
    FourBits(POLYNOMIAL, 4, 0xEDB8832, 0xEDB883);
    FourBits(POLYNOMIAL, 8, 0xEDB883, 0xEDB88);
    FourBits(POLYNOMIAL, 12, 0xEDB88, 0xEDB8);
    FourBits(POLYNOMIAL, 16, 0xEDB8, 0xEDB);
    FourBits(POLYNOMIAL, 20, 0xEDB, 0xED);
    FourBits(POLYNOMIAL, 24, 0xED, 0xE);
    FourBits(POLYNOMIAL, 28, 0xE, 0);
  }

  lemma LoweredNone(x: bv32)
    ensures Lowered(0, x) == x
  {
  }

  // ----- polynomial arithmetic -----

  lemma AddZero(p: Poly)
    ensures Add(p, {}) == p && Add({}, p) == p && Add(p, p) == {}
  {
  }

  lemma AddExchange(p: Poly, q: Poly, r: Poly, s: Poly)
    ensures Add(Add(p, q), Add(r, s)) == Add(Add(p, r), Add(q, s))
  {
  }

  lemma InShift(k: nat, p: Poly, e: nat)
    ensures e in Shift(k, p) <==> e >= k && e - k in p
  {
    if e >= k && e - k in p {
      assert e == (e - k) + k;
    }
  }

  lemma ShiftAdd(k: nat, p: Poly, q: Poly)
    ensures Shift(k, Add(p, q)) == Add(Shift(k, p), Shift(k, q))
  {
    forall e: nat
      ensures e in Shift(k, Add(p, q)) <==> e in Add(Shift(k, p), Shift(k, q))
    {
      InShift(k, p, e);
      InShift(k, q, e);
      InShift(k, Add(p, q), e);
    }
  }

  lemma ShiftShift(j: nat, k: nat, p: Poly)
    ensures Shift(j, Shift(k, p)) == Shift(j + k, p)
  {
    forall e: nat
      ensures e in Shift(j, Shift(k, p)) <==> e in Shift(j + k, p)
    {
      InShift(j + k, p, e);
      InShift(j, Shift(k, p), e);
      if e >= j {
        InShift(k, p, e - j);
      }
    }
  }

  // ----- one bit -----

  /** The bit the step feeds back is the next digit of the quotient. */
  lemma RegisterStep(x: bv32)
    ensures Register(Step(x)) == Add(Shift(1, Register(x)), if Odd(x) then GENERATOR else {})
  {
    hide Xor, Half, BitAt, Add;
    var shifted := Shift(1, Register(x));
    RegisterHalf(x);
    RegisterXor(Half(x), Feedback(Odd(x)));
    TopOfShift(x);
    if Odd(x) {
      RegisterGenerator();
      AddWithoutTop(shifted, GENERATOR, 32);
    } else {
      RegisterZero();
      AddZero(shifted);
      AddZero(shifted - {32});
    }
  }

  lemma RegisterZero()
    ensures Register(0) == {}
  {
    hide Xor;
    RegisterXor(0, 0);
    XorZero(0);
  }

  lemma TopOfShift(x: bv32)
    ensures 32 in Shift(1, Register(x)) <==> Odd(x)
  {
    hide Odd;
    LoweredNone(x);
    InShift(1, Register(x), 32);
    assert 31 in Register(x) <==> Coefficient(x, 31);
  }

  lemma AddWithoutTop(p: Poly, q: Poly, top: nat)
    requires top in p && top in q
    ensures Add(p - {top}, q - {top}) == Add(p, q)
  {
  }

  /** One bit of input. */
  function BitStep(crc: bv32, bit: bool): bv32 {
    Step(Xor(crc, Column(bit, 1)))
  }

  lemma RegisterBitStep(crc: bv32, bit: bool)
    ensures Register(BitStep(crc, bit))
         == Add(Add(Shift(1, Register(crc)), if bit then {32} else {}), if Odd(Xor(crc, Column(bit, 1))) then GENERATOR else {})
  {
    hide Xor, Step, Odd, Add, Register;
    RegisterStep(Xor(crc, Column(bit, 1)));
    RegisterXor(crc, Column(bit, 1));
    RegisterColumn(bit);
    ShiftAdd(1, Register(crc), Register(Column(bit, 1)));
  }

  lemma RegisterColumn(bit: bool)
    ensures Shift(1, Register(Column(bit, 1))) == if bit then {32} else {}
  {
    RegisterZero();
    RegisterOne();
  }

  lemma RegisterOne()
    ensures Register(1) == {31}
  {
    hide Odd, Lowered, BitAt;
    LoweredNone(1);
    FourBits(1, 0, 1, 0);
    FourBits(1, 4, 0, 0);
    FourBits(1, 8, 0, 0);
    FourBits(1, 12, 0, 0);
    FourBits(1, 16, 0, 0);
    FourBits(1, 20, 0, 0);
    FourBits(1, 24, 0, 0);
    FourBits(1, 28, 0, 0);
  }

  // ----- long division -----

  function BitRun(crc: bv32, bits: seq<bool>): bv32
    decreases |bits|
  {
    if bits == [] then crc else BitStep(BitRun(crc, bits[..|bits| - 1]), bits[|bits| - 1])
  }

  /** The bits fed back, in order. */
  function Quotient(crc: bv32, bits: seq<bool>): (q: seq<bool>)
    ensures |q| == |bits|
  {
    if bits == [] then []
    else
      var before := bits[..|bits| - 1];
      Quotient(crc, before) + [Odd(Xor(BitRun(crc, before), Column(bits[|bits| - 1], 1)))]
  }

  /** The message with 32 zero coefficients behind it, its leading coefficients complemented by crc. */
  function Dividend(crc: bv32, bits: seq<bool>): Poly {
    Add(Shift(32, Message(bits)), Shift(|bits|, Register(crc)))
  }

  lemma DividendNext(crc: bv32, bits: seq<bool>, bit: bool)
    ensures Dividend(crc, bits + [bit]) == Add(Shift(1, Dividend(crc, bits)), if bit then {32} else {})
  {
    hide Add, Shift, Register, Message;
    var m, r := Shift(32, Message(bits)), Shift(|bits|, Register(crc));
    var low, top := if bit then {0} else {}, if bit then {32} else {};
    MessageNext(bits, bit);
    ShiftAdd(32, Shift(1, Message(bits)), low);
    ShiftShift(32, 1, Message(bits));
    ShiftShift(1, 32, Message(bits));
    ShiftShift(1, |bits|, Register(crc));
    ShiftLow(bit);
    ShiftAdd(1, m, r);
    AddSwap(Shift(1, m), top, Shift(1, r));
  }

  lemma MessageNext(bits: seq<bool>, bit: bool)
    ensures Message(bits + [bit]) == Add(Shift(1, Message(bits)), if bit then {0} else {})
  {
    hide Add, Shift;
    assert (bits + [bit])[..|bits|] == bits;
  }

  lemma TimesNext(q: seq<bool>, bit: bool)
    ensures Times(q + [bit]) == Add(Shift(1, Times(q)), if bit then GENERATOR else {})
  {
    hide Add, Shift;
    assert (q + [bit])[..|q|] == q;
  }

  lemma ShiftLow(bit: bool)
    ensures Shift(32, if bit then {0} else {}) == if bit then {32} else {}
  {
  }

  lemma AddSwap(m: Poly, t: Poly, r: Poly)
    ensures Add(Add(m, t), r) == Add(Add(m, r), t)
  {
  }

  lemma AddRegroup(t: Poly, o: Poly, g: Poly, b: Poly)
    ensures Add(Add(t, o), Add(Add(g, b), o)) == Add(Add(t, g), b)
  {
  }

  /** The register after a bit string is the remainder of its dividend. */
  lemma {:induction false} Division(crc: bv32, bits: seq<bool>)
    ensures Dividend(crc, bits) == Add(Times(Quotient(crc, bits)), Register(BitRun(crc, bits)))
    decreases |bits|
  {
    hide Add, Shift, Register, Dividend, BitStep, Message, Times, Xor, Column, Odd;
    if bits == [] {
      DivisionOfNothing(crc);
    } else {
      var n := |bits| - 1;
      var before, bit := bits[..n], bits[n];
      var r, q := BitRun(crc, before), Quotient(crc, before);
      var o := Odd(Xor(r, Column(bit, 1)));
      assert bits == before + [bit];
      Division(crc, before);
      DividendNext(crc, before, bit);
      ShiftAdd(1, Times(q), Register(r));
      TimesNext(q, o);
      RegisterBitStep(r, bit);
      AddRegroup(Shift(1, Times(q)), if o then GENERATOR else {}, Shift(1, Register(r)), if bit then {32} else {});
    }
  }

  lemma DivisionOfNothing(crc: bv32)
    ensures Dividend(crc, []) == Add(Times([]), Register(crc))
  {
    hide Register;
    AddZero(Register(crc));
    assert Shift(0, Register(crc)) == Register(crc) by {
      forall e: nat
        ensures e in Shift(0, Register(crc)) <==> e in Register(crc)
      {
        InShift(0, Register(crc), e);
      }
    }
    assert Shift(32, {}) == {};
  }

  // ----- bytes as bits, low bit first -----

  function BitsOf(b: bv8): seq<bool> {
    [Bit(b, 1), Bit(b, 2), Bit(b, 4), Bit(b, 8), Bit(b, 0x10), Bit(b, 0x20), Bit(b, 0x40), Bit(b, 0x80)]
  }

  function Bits(data: seq<bv8>): (bits: seq<bool>)
    ensures |bits| == 8 * |data|
  {
    if data == [] then [] else Bits(data[..|data| - 1]) + BitsOf(data[|data| - 1])
  }

  lemma {:induction false} BitRunAppend(crc: bv32, a: seq<bool>, b: seq<bool>)
    ensures BitRun(crc, a + b) == BitRun(BitRun(crc, a), b)
    decreases |b|
  {
    hide BitStep;
    if b == [] {
      assert a + b == a;
    } else {
      var n := |b| - 1;
      assert (a + b)[..|a + b| - 1] == a + b[..n];
      BitRunAppend(crc, a, b[..n]);
    }
  }

  /** A bit could as well have been mixed in early, placed where k zero bits bring it down. */
  lemma AbsorbBit(k: nat, crc: bv32, bit: bool, placed: bv32)
    requires Zeros(k, placed) == 1
    ensures BitStep(Zeros(k, crc), bit) == Zeros(k + 1, Xor(crc, Column(bit, placed)))
  {
    hide Xor, Column, Step;
    ZerosLinear(k, crc, Column(bit, placed));
    ZerosOfColumn(k, bit, placed);
  }

  lemma BitRunOne(crc: bv32, bits: seq<bool>, bit: bool)
    ensures BitRun(crc, bits + [bit]) == BitStep(BitRun(crc, bits), bit)
  {
    hide BitStep;
    assert (bits + [bit])[..|bits|] == bits;
  }

  lemma PlacedBits()
    ensures Zeros(0, 1) == 1 && Zeros(1, 2) == 1 && Zeros(2, 4) == 1 && Zeros(3, 8) == 1
    ensures Zeros(4, 0x10) == 1 && Zeros(5, 0x20) == 1 && Zeros(6, 0x40) == 1 && Zeros(7, 0x80) == 1
  {
    hide Odd, Half, Zeros;
    HalvesOfPowers();
    ZerosNone(1);
    ShiftOut(0, 2, 1); ShiftOut(1, 4, 2); ShiftOut(0, 2, 1); ShiftOut(2, 8, 4);
    ShiftOut(1, 4, 2); ShiftOut(3, 0x10, 8); ShiftOut(4, 0x20, 0x10); ShiftOut(5, 0x40, 0x20); ShiftOut(6, 0x80, 0x40);
  }

  lemma ByteAsBits(crc: bv32, b: bv8)
    ensures BitRun(crc, BitsOf(b)) == ByteStep(crc, b)
  {
    hide *;
    PlacedBits();
    var c0, c1, c2, c3 := Column(Bit(b, 1), 1), Column(Bit(b, 2), 2), Column(Bit(b, 4), 4), Column(Bit(b, 8), 8);
    var c4, c5 := Column(Bit(b, 0x10), 0x10), Column(Bit(b, 0x20), 0x20);
    var c6, c7 := Column(Bit(b, 0x40), 0x40), Column(Bit(b, 0x80), 0x80);
    EightBits(crc, Bit(b, 1), Bit(b, 2), Bit(b, 4), Bit(b, 8), Bit(b, 0x10), Bit(b, 0x20), Bit(b, 0x40), Bit(b, 0x80));
    BitsOfIs(b);
    ByteStepIs(crc, b);
    MixedByColumns(crc, b);
  }

  lemma BitsOfIs(b: bv8)
    ensures BitsOf(b)
         == [Bit(b, 1), Bit(b, 2), Bit(b, 4), Bit(b, 8), Bit(b, 0x10), Bit(b, 0x20), Bit(b, 0x40), Bit(b, 0x80)]
  {
    hide Bit;
  }

  /** A register with eight bits mixed in, low bit first. */
  function MixedBits(crc: bv32, b0: bool, b1: bool, b2: bool, b3: bool, b4: bool, b5: bool, b6: bool, b7: bool): bv32 {
    Xor(Xor(Xor(Xor(Xor(Xor(Xor(Xor(crc, Column(b0, 1)), Column(b1, 2)), Column(b2, 4)), Column(b3, 8)),
      Column(b4, 0x10)), Column(b5, 0x20)), Column(b6, 0x40)), Column(b7, 0x80))
  }

  lemma FourBitsRun(k: nat, x: bv32, b0: bool, b1: bool, b2: bool, b3: bool, p0: bv32, p1: bv32, p2: bv32, p3: bv32)
    requires Zeros(k, p0) == 1 && Zeros(k + 1, p1) == 1 && Zeros(k + 2, p2) == 1 && Zeros(k + 3, p3) == 1
    ensures BitRun(Zeros(k, x), [b0, b1, b2, b3])
         == Zeros(k + 4, Xor(Xor(Xor(Xor(x, Column(b0, p0)), Column(b1, p1)), Column(b2, p2)), Column(b3, p3)))
  {
    hide *;
    AbsorbBit(k, x, b0, p0);
    AbsorbBit(k + 1, Xor(x, Column(b0, p0)), b1, p1);
    AbsorbBit(k + 2, Xor(Xor(x, Column(b0, p0)), Column(b1, p1)), b2, p2);
    AbsorbBit(k + 3, Xor(Xor(Xor(x, Column(b0, p0)), Column(b1, p1)), Column(b2, p2)), b3, p3);
    BitRunOfFour(Zeros(k, x), b0, b1, b2, b3);
  }

  lemma BitRunOfFour(crc: bv32, b0: bool, b1: bool, b2: bool, b3: bool)
    ensures BitRun(crc, [b0, b1, b2, b3]) == BitStep(BitStep(BitStep(BitStep(crc, b0), b1), b2), b3)
  {
    hide BitStep, BitRun;
    BitRunNone(crc);
    BitRunOne(crc, [], b0);
    BitRunOne(crc, [b0], b1);
    BitRunOne(crc, [b0, b1], b2);
    BitRunOne(crc, [b0, b1, b2], b3);
    assert [] + [b0] == [b0] && [b0] + [b1] == [b0, b1];
    assert [b0, b1] + [b2] == [b0, b1, b2] && [b0, b1, b2] + [b3] == [b0, b1, b2, b3];
  }

  lemma EightBits(crc: bv32, b0: bool, b1: bool, b2: bool, b3: bool, b4: bool, b5: bool, b6: bool, b7: bool)
    ensures BitRun(crc, [b0, b1, b2, b3, b4, b5, b6, b7]) == Zeros(8, MixedBits(crc, b0, b1, b2, b3, b4, b5, b6, b7))
  {
    hide Xor, Column, Zeros, BitRun, BitStep;
    PlacedBits();
    ZerosNone(crc);
    assert [b0, b1, b2, b3, b4, b5, b6, b7] == [b0, b1, b2, b3] + [b4, b5, b6, b7];
    BitRunAppend(crc, [b0, b1, b2, b3], [b4, b5, b6, b7]);
    FourBitsRun(0, crc, b0, b1, b2, b3, 1, 2, 4, 8);
    FourBitsRun(4, Xor(Xor(Xor(Xor(crc, Column(b0, 1)), Column(b1, 2)), Column(b2, 4)), Column(b3, 8)),
      b4, b5, b6, b7, 0x10, 0x20, 0x40, 0x80);
  }

  lemma BitRunNone(crc: bv32)
    ensures BitRun(crc, []) == crc
  {
  }

  lemma MixedByColumns(crc: bv32, b: bv8)
    ensures MixedBits(crc, Bit(b, 1), Bit(b, 2), Bit(b, 4), Bit(b, 8), Bit(b, 0x10), Bit(b, 0x20), Bit(b, 0x40), Bit(b, 0x80))
         == Xor(crc, b as bv32)
  {
    hide Xor, Column, Bit;
    ByteBits(b);
    MixedChain(crc, Column(Bit(b, 1), 1), Column(Bit(b, 2), 2), Column(Bit(b, 4), 4), Column(Bit(b, 8), 8),
      Column(Bit(b, 0x10), 0x10), Column(Bit(b, 0x20), 0x20), Column(Bit(b, 0x40), 0x40), Column(Bit(b, 0x80), 0x80));
  }

  lemma MixedChain(crc: bv32, c0: bv32, c1: bv32, c2: bv32, c3: bv32, c4: bv32, c5: bv32, c6: bv32, c7: bv32)
    ensures Xor(Xor(Xor(Xor(Xor(Xor(Xor(Xor(crc, c0), c1), c2), c3), c4), c5), c6), c7)
         == Xor(crc, Xor(Xor4(c7, c6, c5, c4), Xor4(c3, c2, c1, c0)))
  {
    hide Xor, Xor4;
    var low := Xor4(c3, c2, c1, c0);
    FourthChain(crc, c0, c1, c2, c3);
    FourthChain(Xor(crc, low), c4, c5, c6, c7);
    XorAssociates(crc, low, Xor4(c7, c6, c5, c4));
    XorCommutes(low, Xor4(c7, c6, c5, c4));
  }

  lemma FourthChain(crc: bv32, a: bv32, b: bv32, c: bv32, d: bv32)
    ensures Xor(Xor(Xor(Xor(crc, a), b), c), d) == Xor(crc, Xor4(d, c, b, a))
  {
    hide Xor, Xor4;
    XorRegroup(crc, a, b, c, d);
    XorCommutes(Xor4(d, c, b, a), crc);
  }

  lemma {:induction false} BytesAsBits(crc: bv32, data: seq<bv8>)
    ensures BitRun(crc, Bits(data)) == Run(crc, data)
    decreases |data|
  {
    hide BitsOf, BitRun, ByteStep;
    if data == [] {
      BitRunNone(crc);
    } else {
      var n := |data| - 1;
      BytesAsBits(crc, data[..n]);
      BitRunAppend(crc, Bits(data[..n]), BitsOf(data[n]));
      ByteAsBits(Run(crc, data[..n]), data[n]);
    }
  }

  // ----- a remainder is determined -----

  ghost predicate HasDegree(p: Poly, d: nat) {
    d in p && forall e :: e in p ==> e <= d
  }

  lemma DegreeNext(p: Poly, d: nat, bit: bool)
    requires HasDegree(p, d) && d >= 32
    ensures HasDegree(Add(Shift(1, p), if bit then GENERATOR else {}), d + 1)
  {
    InShift(1, p, d + 1);
  }

  lemma GeneratorTimesOne()
    ensures Times([true]) == GENERATOR
  {
    hide GENERATOR;
    TimesNext([], true);
    assert [] + [true] == [true];
    ShiftNothing();
    AddZero(GENERATOR);
  }

  /** A quotient that starts with a one makes a product of degree 31 + its length. */
  lemma {:induction false} LeadingTerm(q: seq<bool>)
    requires |q| > 0 && q[0]
    ensures HasDegree(Times(q), 31 + |q|)
    decreases |q|
  {
    hide Times, Add, Shift;
    var n := |q| - 1;
    if n == 0 {
      assert q == [true];
      GeneratorTimesOne();
    } else {
      LeadingTerm(q[..n]);
      TimesNext(q[..n], q[n]);
      assert q[..n] + [q[n]] == q;
      DegreeNext(Times(q[..n]), 31 + n, q[n]);
    }
  }

  lemma {:induction false} NoLeadingTerm(q: seq<bool>)
    requires |q| > 0 && !q[0]
    ensures Times(q) == Times(q[1..])
    decreases |q|
  {
    hide Add, Shift;
    var n := |q| - 1;
    assert q[..n] + [q[n]] == q;
    TimesNext(q[..n], q[n]);
    if n == 0 {
      assert Times(q[..n]) == {};
      assert q[1..] == [];
      ShiftNothing();
      AddZero({});
    } else {
      NoLeadingTerm(q[..n]);
      assert q[1..] == q[..n][1..] + [q[n]];
      TimesNext(q[..n][1..], q[n]);
    }
  }

  lemma ShiftNothing()
    ensures Shift(1, {}) == {}
  {
  }

  /** No multiple of the generator but zero has degree below 32. */
  lemma {:induction false} SmallMultiple(q: seq<bool>)
    requires forall e :: e in Times(q) ==> e < 32
    ensures Times(q) == {}
    decreases |q|
  {
    if q != [] {
      if q[0] {
        LeadingTerm(q);
      } else {
        NoLeadingTerm(q);
        SmallMultiple(q[1..]);
      }
    }
  }

  function Differences(p: seq<bool>, q: seq<bool>): (d: seq<bool>)
    requires |p| == |q|
    ensures |d| == |p|
  {
    if p == [] then [] else Differences(p[..|p| - 1], q[..|q| - 1]) + [p[|p| - 1] != q[|q| - 1]]
  }

  lemma {:induction false} TimesAdd(p: seq<bool>, q: seq<bool>)
    requires |p| == |q|
    ensures Add(Times(p), Times(q)) == Times(Differences(p, q))
    decreases |p|
  {
    hide Add, Shift, GENERATOR;
    if p == [] {
      AddZero({});
    } else {
      var n := |p| - 1;
      TimesAdd(p[..n], q[..n]);
      ShiftAdd(1, Times(p[..n]), Times(q[..n]));
      TimesNext(Differences(p[..n], q[..n]), p[n] != q[n]);
      AddZero(GENERATOR);
      AddZero({});
      AddExchange(Shift(1, Times(p[..n])), if p[n] then GENERATOR else {}, Shift(1, Times(q[..n])), if q[n] then GENERATOR else {});
    }
  }

  /** q with k zeros in front. */
  function Padded(k: nat, q: seq<bool>): (p: seq<bool>)
    ensures |p| == k + |q|
  {
    if k == 0 then q else [false] + Padded(k - 1, q)
  }

  lemma {:induction false} PaddingIsNothing(k: nat, q: seq<bool>)
    ensures Times(Padded(k, q)) == Times(q)
  {
    hide Times;
    if k != 0 {
      PaddingIsNothing(k - 1, q);
      NoLeadingTerm(Padded(k, q));
      assert Padded(k, q)[1..] == Padded(k - 1, q);
    }
  }

  /** A dividend has one remainder, whatever its quotients look like. */
  lemma RemainderUnique(dividend: Poly, p: seq<bool>, q: seq<bool>, r: bv32, s: bv32)
    requires dividend == Add(Times(p), Register(r)) == Add(Times(q), Register(s))
    ensures r == s
  {
    hide Times, Register;
    PaddingIsNothing(|q|, p);
    PaddingIsNothing(|p|, q);
    RemainderUniqueAt(dividend, Padded(|q|, p), Padded(|p|, q), r, s);
  }

  lemma RemainderUniqueAt(dividend: Poly, p: seq<bool>, q: seq<bool>, r: bv32, s: bv32)
    requires |p| == |q|
    requires dividend == Add(Times(p), Register(r)) == Add(Times(q), Register(s))
    ensures r == s
  {
    hide Times, Register, Xor;
    TimesAdd(p, q);
    RegisterXor(r, s);
    DifferenceOfSums(Times(p), Times(q), Register(r), Register(s));
    RegisterSmall(Xor(r, s));
    SmallMultiple(Differences(p, q));
    RegisterInjective(Xor(r, s));
    XorCancels(r, s);
    XorZero(s);
  }

  lemma DifferenceOfSums(t: Poly, u: Poly, g: Poly, h: Poly)
    requires Add(t, g) == Add(u, h)
    ensures Add(t, u) == Add(g, h)
  {
    forall e: nat
      ensures e in Add(t, u) <==> e in Add(g, h)
    {
      assert e in Add(t, g) <==> e in Add(u, h);
    }
  }

  lemma RegisterSmall(x: bv32)
    ensures forall e :: e in Register(x) ==> e < 32
  {
  }

  lemma RegisterInjective(x: bv32)
    requires Register(x) == {}
    ensures x == 0
  {
    hide Odd, Lowered;
    LoweredVanishes(x);
    forall i: nat | i < 32
      ensures !BitAt(x, i)
    {
      assert 31 - (31 - i) == i && (31 - i) !in Register(x);
    }
    NoBits(x, 32);
  }

  lemma {:induction false} NoBits(x: bv32, n: nat)
    requires Lowered(n, x) == 0
    requires forall j: nat | j < n :: !BitAt(x, j)
    ensures x == 0
    decreases n
  {
    hide Odd, Half, Double, Xor;
    if n != 0 {
      forall j: nat | j < n - 1
        ensures !BitAt(Half(x), j)
      {
        assert !BitAt(x, j + 1);
      }
      NoBits(Half(x), n - 1);
      assert !BitAt(x, 0);
      LoweredNone(x);
      LowBitSplit(x);
      DoubleZero();
      XorZero(0);
    }
  }

  lemma DoubleZero()
    ensures Double(0) == 0
  {
  }

  // ----- the standard's definition -----

  /** x^32 times the content, plus x^k (x^31 + ... + 1) for its k bits. */
  function FrameDividend(bits: seq<bool>): Poly {
    Add(Shift(32, Message(bits)), Shift(|bits|, ALL_ONES))
  }

  /** r is a remainder of the content's dividend by the generator. */
  ghost predicate IsRemainder(data: seq<bv8>, r: bv32) {
    exists q :: FrameDividend(Bits(data)) == Add(Times(q), Register(r))
  }

  lemma RegisterOnes()
    ensures Register(ONES) == ALL_ONES
  {
    hide Odd, Lowered, BitAt;
    LoweredNone(ONES);
    FourBits(ONES, 0, 0xFFFF_FFFF, 0xFFF_FFFF);
    FourBits(ONES, 4, 0xFFF_FFFF, 0xFF_FFFF);
    FourBits(ONES, 8, 0xFF_FFFF, 0xF_FFFF);
    FourBits(ONES, 12, 0xF_FFFF, 0xFFFF);
    FourBits(ONES, 16, 0xFFFF, 0xFFF);
    FourBits(ONES, 20, 0xFFF, 0xFF);
    FourBits(ONES, 24, 0xFF, 0xF);
    FourBits(ONES, 28, 0xF, 0);
  }

  /** The register that starts with all ones ends with the remainder, and no other register is one. */
  lemma RegisterIsRemainder(data: seq<bv8>, r: bv32)
    ensures IsRemainder(data, r) <==> r == Run(ONES, data)
  {
    hide Run, Register, Times, Add, Shift, Message, Bits, ALL_ONES;
    RegisterOnes();
    Division(ONES, Bits(data));
    BytesAsBits(ONES, data);
    var q := Quotient(ONES, Bits(data));
    if IsRemainder(data, r) {
      var p :| FrameDividend(Bits(data)) == Add(Times(p), Register(r));
      RemainderUnique(FrameDividend(Bits(data)), p, q, r, Run(ONES, data));
    }
  }

  /** The checksum is the complement of that remainder, and nothing else is. */
  lemma CrcIsFrameCheck(data: seq<bv8>, fcs: bv32)
    ensures IsRemainder(data, Not(fcs)) <==> fcs == Crc(0, data)
  {
    hide Not, Run, IsRemainder;
    NotZero();
    NotNot(fcs);
    NotNot(Run(ONES, data));
    RegisterIsRemainder(data, Not(fcs));
  }
}
