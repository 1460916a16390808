/** `crc32_combine` of kismet/crc32.cc: the checksum of a concatenation from two checksums and a length,
    by repeated squaring of 32x32 matrices over GF(2). A matrix is an array of 32 columns. */
module Crc32Combine {
  import opened Gf2Words
  import opened Crc32Register

  /** The word with only bit i set. */
  function Unit(i: nat): bv32 {
    if i == 0 then 1 else Double(Unit(i - 1))
  }

  /** Columns i and up of the matrix, selected by the bits of vec and added. */
  function TimesFrom(m: seq<bv32>, i: nat, vec: bv32): bv32
    requires |m| == 32 && i <= 32
    decreases 32 - i
  {
    if i == 32 then 0
    else Xor(if Odd(vec) then m[i] else 0, TimesFrom(m, i + 1, Half(vec)))
  }

  /** The product of a matrix and a vector. */
  function Times(m: seq<bv32>, vec: bv32): bv32
    requires |m| == 32
  {
    TimesFrom(m, 0, vec)
  }

  /** The matrix that clocks n zero bits into a register. */
  ghost predicate IsOperator(m: seq<bv32>, n: nat) {
    |m| == 32 && forall i :: 0 <= i < 32 ==> m[i] == Zeros(n, Unit(i))
  }

  /** vec, moved up to bit i. */
  function Raised(i: nat, vec: bv32): bv32 {
    if i == 0 then vec else Double(Raised(i - 1, vec))
  }

  lemma {:induction false} RaisedLinear(i: nat, x: bv32, y: bv32)
    ensures Raised(i, Xor(x, y)) == Xor(Raised(i, x), Raised(i, y))
  {
    hide Xor, Double;
    if i != 0 {
      RaisedLinear(i - 1, x, y);
      DoubleLinear(Raised(i - 1, x), Raised(i - 1, y));
    }
  }

  lemma {:induction false} RaisedDouble(i: nat, vec: bv32)
    ensures Raised(i, Double(vec)) == Raised(i + 1, vec)
  {
    hide Double;
    if i != 0 {
      RaisedDouble(i - 1, vec);
    }
  }

  lemma {:induction false} RaisedOne(i: nat)
    ensures Raised(i, 1) == Unit(i)
  {
    hide Double;
    if i != 0 {
      RaisedOne(i - 1);
    }
  }

  lemma {:induction false} RaisedZero(i: nat)
    ensures Raised(i, 0) == 0
  {
    if i != 0 {
      RaisedZero(i - 1);
    }
  }

  /** A matrix of columns applies its operator to every vector, not only to the units. */
  lemma {:induction false} TimesFromIsZeros(m: seq<bv32>, n: nat, i: nat, vec: bv32)
    requires IsOperator(m, n) && i <= 32
    ensures TimesFrom(m, i, vec) == Zeros(n, Raised(i, vec))
    decreases 32 - i
  {
    hide Xor, Odd, Half, Double, Zeros;
    if i == 32 {
      RaisedVanishes(vec);
      ZerosOfZero(n);
    } else {
      TimesFromIsZeros(m, n, i + 1, Half(vec));
      var low := if Odd(vec) then 1 else 0;
      LowBitSplit(vec);
      RaisedLinear(i, low, Double(Half(vec)));
      RaisedDouble(i, Half(vec));
      RaisedOne(i);
      RaisedZero(i);
      ZerosOfZero(n);
      ZerosLinear(n, Raised(i, low), Raised(i + 1, Half(vec)));
    }
  }

  lemma {:induction false} RaisedAdd(i: nat, j: nat, vec: bv32)
    ensures Raised(i + j, vec) == Raised(i, Raised(j, vec))
  {
    hide Double;
    if i != 0 {
      RaisedAdd(i - 1, j, vec);
    }
  }

  lemma RaisedBy8(vec: bv32)
    ensures Raised(8, vec) == vec << 8
  {
    assert Raised(1, vec) == vec << 1;
    assert Raised(2, vec) == vec << 2;
    assert Raised(3, vec) == vec << 3;
    assert Raised(4, vec) == vec << 4;
    assert Raised(5, vec) == vec << 5;
    assert Raised(6, vec) == vec << 6;
    assert Raised(7, vec) == vec << 7;
  }

  lemma RaisedByEights(a: bv32, b: bv32, c: bv32, d: bv32, e: bv32)
    requires b == Raised(8, a) && c == Raised(8, b) && d == Raised(8, c) && e == Raised(8, d)
    ensures Raised(32, a) == e
  {
    hide Raised;
    RaisedAdd(8, 8, a);
    RaisedAdd(8, 16, a);
    RaisedAdd(8, 24, a);
  }

  /** Thirty-two places up, nothing of a word is left. */
  lemma RaisedVanishes(vec: bv32)
    ensures Raised(32, vec) == 0
  {
    hide Raised;
    RaisedBy8(vec);
    RaisedBy8(vec << 8);
    RaisedBy8(vec << 16);
    RaisedBy8(vec << 24);
    RaisedByEights(vec, vec << 8, vec << 16, vec << 24, 0);
  }

  /** Squaring: the product of each column with the matrix doubles the number of zero bits. */
  lemma SquareColumn(m: seq<bv32>, n: nat, i: nat)
    requires IsOperator(m, n) && i < 32
    ensures Times(m, m[i]) == Zeros(2 * n, Unit(i))
  {
    hide Zeros;
    TimesIsZeros(m, n, m[i]);
    ZerosAdd(n, n, Unit(i));
  }

  lemma TimesIsZeros(m: seq<bv32>, n: nat, vec: bv32)
    requires IsOperator(m, n)
    ensures Times(m, vec) == Zeros(n, vec)
  {
    hide Zeros;
    TimesFromIsZeros(m, n, 0, vec);
  }

  // ----- the loops of the source, which it inlines three times -----

  lemma {:induction false} TimesFromZero(m: seq<bv32>, i: nat)
    requires |m| == 32 && i <= 32
    ensures TimesFrom(m, i, 0) == 0
    decreases 32 - i
  {
    if i != 32 {
      TimesFromZero(m, i + 1);
      assert Half(0) == 0 && !Odd(0) && Xor(0, 0) == 0;
    }
  }

  /** One turn of the bit loop. */
  lemma BitTurn(m: seq<bv32>, j: nat, rest: bv32, sum: bv32)
    requires |m| == 32 && j < 32
    ensures Xor(sum, TimesFrom(m, j, rest))
         == Xor(if Odd(rest) then Xor(sum, m[j]) else sum, TimesFrom(m, j + 1, Half(rest)))
  {
    hide Xor, Odd, Half;
    XorAssociates(sum, m[j], TimesFrom(m, j + 1, Half(rest)));
    XorZero(TimesFrom(m, j + 1, Half(rest)));
  }

  /** Add the columns of m that vec selects, until no bit of vec is left. */
  method MatrixTimes(m: array<bv32>, vec: bv32) returns (sum: bv32)
    requires m.Length == 32
    ensures sum == Times(m[..], vec)
  {
    hide Xor, Half, Odd, TimesFrom;
    sum := 0;
    var rest, j := vec, 0;
    XorZero(Times(m[..], vec));
    LoweredVanishes(vec);
    while rest != 0
      invariant 0 <= j <= 32
      invariant Lowered(32 - j, rest) == 0
      invariant Times(m[..], vec) == Xor(sum, TimesFrom(m[..], j, rest))
      decreases 32 - j
    {
      BitTurn(m[..], j, rest, sum);
      if Odd(rest) {
        sum := Xor(sum, m[j]);
      }
      j := j + 1;
      rest := Half(rest);
    }
    TimesFromZero(m[..], j);
    XorZero(sum);
  }

  /** a becomes the square of b. */
  method MatrixSquare(a: array<bv32>, b: array<bv32>, ghost n: nat)
    requires a != b && a.Length == 32 && b.Length == 32
    requires IsOperator(b[..], n)
    modifies a
    ensures IsOperator(a[..], 2 * n)
  {
    hide Zeros, Times;
    for i := 0 to 32
      invariant forall k :: 0 <= k < i ==> a[k] == Zeros(2 * n, Unit(k))
    {
      SquareColumn(b[..], n, i);
      a[i] := MatrixTimes(b, b[i]);
    }
  }

  // ----- the matrix for one zero bit -----

  predicate TopClear(x: bv32) {
    x & 0x8000_0000 == 0
  }

  lemma UnitValues()
    ensures Unit(0) == 1 && Unit(1) == 2 && Unit(2) == 4 && Unit(3) == 8
    ensures Unit(4) == 0x10 && Unit(5) == 0x20 && Unit(6) == 0x40 && Unit(7) == 0x80
    ensures Unit(8) == 0x100 && Unit(9) == 0x200 && Unit(10) == 0x400 && Unit(11) == 0x800
    ensures Unit(12) == 0x1000 && Unit(13) == 0x2000 && Unit(14) == 0x4000 && Unit(15) == 0x8000
    ensures Unit(16) == 0x1_0000 && Unit(17) == 0x2_0000 && Unit(18) == 0x4_0000 && Unit(19) == 0x8_0000
    ensures Unit(20) == 0x10_0000 && Unit(21) == 0x20_0000 && Unit(22) == 0x40_0000 && Unit(23) == 0x80_0000
    ensures Unit(24) == 0x100_0000 && Unit(25) == 0x200_0000 && Unit(26) == 0x400_0000 && Unit(27) == 0x800_0000
    ensures Unit(28) == 0x1000_0000 && Unit(29) == 0x2000_0000 && Unit(30) == 0x4000_0000
  {
  }

  lemma UnitTopClear(j: nat)
    requires j <= 30
    ensures TopClear(Unit(j))
  {
    hide Unit;
    UnitValues();
    assert j == 0 || j == 1 || j == 2 || j == 3 || j == 4 || j == 5 || j == 6 || j == 7 || j == 8 || j == 9
      || j == 10 || j == 11 || j == 12 || j == 13 || j == 14 || j == 15 || j == 16 || j == 17 || j == 18 || j == 19
      || j == 20 || j == 21 || j == 22 || j == 23 || j == 24 || j == 25 || j == 26 || j == 27 || j == 28 || j == 29
      || j == 30;
  }

  lemma DoubleIsEven(x: bv32)
    requires TopClear(x)
    ensures !Odd(Double(x)) && Half(Double(x)) == x
  {
  }

  lemma StepOfUnit(i: nat)
    requires 1 <= i < 32
    ensures Step(Unit(i)) == Unit(i - 1)
  {
    hide Odd, Half, Double, Xor, TopClear;
    UnitTopClear(i - 1);
    DoubleIsEven(Unit(i - 1));
    XorZero(Unit(i - 1));
  }

  /** `odd` as the source sets it up: the operator for one zero bit. */
  lemma OneBitOperator(m: seq<bv32>)
    requires |m| == 32 && m[0] == POLYNOMIAL
    requires forall k :: 1 <= k < 32 ==> m[k] == Unit(k - 1)
    ensures IsOperator(m, 1)
  {
    forall i | 0 <= i < 32
      ensures m[i] == Zeros(1, Unit(i))
    {
      hide Step, Unit;
      ZerosNext(0, Unit(i));
      if i == 0 {
        StepOfLowestUnit();
      } else {
        StepOfUnit(i);
      }
    }
  }

  lemma StepOfLowestUnit()
    ensures Step(Unit(0)) == POLYNOMIAL
  {
  }

  // ----- the combination -----

  /** One bit of the length: the zero bytes still owed, in units of p. */
  lemma LengthTurn(p: nat, length: nat, crc: bv32)
    ensures Zeros(8 * (p * length), crc)
         == Zeros(8 * (2 * p * (length / 2)), if length % 2 == 1 then Zeros(8 * p, crc) else crc)
  {
    hide Zeros;
    assert length == 2 * (length / 2) + length % 2;
    assert p * length == 2 * p * (length / 2) + p * (length % 2);
    if length % 2 == 1 {
      ZerosAdd(8 * p, 8 * (2 * p * (length / 2)), crc);
    }
  }

  /** The loop over the bits of the length, swapping the two matrices as it squares. */
  method AppendZeros(even: array<bv32>, odd: array<bv32>, crcA: bv32, lengthB: nat) returns (crc: bv32)
    requires even != odd && even.Length == 32 && odd.Length == 32
    requires IsOperator(odd[..], 4)
    modifies even, odd
    ensures crc == Zeros(8 * lengthB, crcA)
  {
    hide Zeros, Times, IsOperator;
    crc := crcA;
    var a, b, length := even, odd, lengthB;
    ghost var p := 1;
    while length > 0
      invariant {a, b} == {even, odd} && a != b && a.Length == 32 && b.Length == 32
      invariant IsOperator(b[..], 4 * p)
      invariant Zeros(8 * (p * length), crc) == Zeros(8 * lengthB, crcA)
    {
      MatrixSquare(a, b, 4 * p);
      LengthTurn(p, length, crc);
      if length % 2 == 1 {
        TimesIsZeros(a[..], 8 * p, crc);
        crc := MatrixTimes(a, crc);
      }
      length := length / 2;
      a, b := b, a;
      p := 2 * p;
    }
    ZerosNone(crc);
  }

  /** What the squarings add up to: crcA with lengthB zero bytes behind it, plus crcB. */
  function Combined(crcA: bv32, crcB: bv32, lengthB: nat): bv32 {
    if lengthB == 0 then crcA else Xor(Zeros(8 * lengthB, crcA), crcB)
  }

  /** crc32_combine */
  method Combine(crcA: bv32, crcB: bv32, lengthB: nat) returns (crc: bv32)
    ensures crc == Combined(crcA, crcB, lengthB)
  {
    if lengthB == 0 {
      return crcA;
    }
    var odd, even := new bv32[32], new bv32[32];
    odd[0] := POLYNOMIAL;
    for i := 1 to 32
      invariant odd[0] == POLYNOMIAL
      invariant forall k :: 1 <= k < i ==> odd[k] == Unit(k - 1)
    {
      odd[i] := Unit(i - 1);
    }
    OneBitOperator(odd[..]);
    MatrixSquare(even, odd, 1);
    MatrixSquare(odd, even, 2);
    crc := AppendZeros(even, odd, crcA, lengthB);
    crc := Xor(crc, crcB);
  }

  /** The promise of the header: combining crcA with the checksum of B continues crcA over B. */
  lemma CombineContinues(crcA: bv32, dataB: seq<bv8>)
    ensures Combined(crcA, Crc(0, dataB), |dataB|) == Crc(crcA, dataB)
  {
    hide Xor, Zeros, Run, Not;
    if dataB == [] {
      RunNone(Not(crcA));
      NotNot(crcA);
    } else {
      NotZero();
      RunSplit(ONES, dataB);
      RunSplit(Not(crcA), dataB);
      NotIsXor(crcA);
      ZerosLinear(8 * |dataB|, crcA, ONES);
      ComplementsCancel(Zeros(8 * |dataB|, crcA), Zeros(8 * |dataB|, ONES), Run(0, dataB));
    }
  }

  lemma ComplementsCancel(a: bv32, o: bv32, b: bv32)
    ensures Xor(a, Not(Xor(o, b))) == Not(Xor(Xor(a, o), b))
  {
    hide Xor, Not;
    NotIsXor(Xor(o, b));
    NotIsXor(Xor(Xor(a, o), b));
    XorAssociates(a, Xor(o, b), ONES);
    XorAssociates(a, o, b);
  }

  /** Two checksums taken apart give the checksum of the concatenation. */
  lemma CombineConcatenates(dataA: seq<bv8>, dataB: seq<bv8>)
    ensures Combined(Crc(0, dataA), Crc(0, dataB), |dataB|) == Crc(0, dataA + dataB)
  {
    hide Crc, Combined;
    CombineContinues(Crc(0, dataA), dataB);
    CrcAppend(0, dataA, dataB);
  }
}
