/** 32-bit words under exclusive or. `Xor` names the machine operator so that proofs can hide it
    and reason by the laws below instead of bit by bit. */
module Gf2Words {

  const ONES: bv32 := 0xFFFF_FFFF

  function Xor(a: bv32, b: bv32): bv32 {
    a ^ b
  }

  function Not(a: bv32): bv32 {
    !a
  }

  function Half(a: bv32): bv32 {
    a >> 1
  }

  function Double(x: bv32): bv32 {
    x << 1
  }

  predicate Odd(a: bv32) {
    a & 1 == 1
  }

  lemma XorIs(a: bv32, b: bv32)
    ensures a ^ b == Xor(a, b)
  {
  }

  lemma XorCommutes(a: bv32, b: bv32)
    ensures Xor(a, b) == Xor(b, a)
  {
  }

  lemma XorAssociates(a: bv32, b: bv32, c: bv32)
    ensures Xor(Xor(a, b), c) == Xor(a, Xor(b, c))
  {
    calc {
      Xor(Xor(a, b), c);
      Xor(a ^ b, c);
      (a ^ b) ^ c;
      a ^ (b ^ c);
      Xor(a, b ^ c);
      Xor(a, Xor(b, c));
    }
  }

  lemma XorZero(a: bv32)
    ensures Xor(a, 0) == a && Xor(0, a) == a
  {
  }

  lemma XorSelf(a: bv32)
    ensures Xor(a, a) == 0
  {
  }

  lemma XorCancels(a: bv32, b: bv32)
    ensures Xor(Xor(a, b), b) == a
  {
    hide Xor;
    XorAssociates(a, b, b);
    XorSelf(b);
    XorZero(a);
  }

  lemma XorExchange(a: bv32, b: bv32, c: bv32, d: bv32)
    ensures Xor(Xor(a, b), Xor(c, d)) == Xor(Xor(a, c), Xor(b, d))
  {
    hide Xor;
    XorAssociates(a, b, Xor(c, d));
    XorAssociates(b, c, d);
    XorCommutes(b, c);
    XorAssociates(c, b, d);
    XorAssociates(a, c, Xor(b, d));
  }

  lemma NotIsXor(a: bv32)
    ensures Not(a) == Xor(a, ONES)
  {
  }

  lemma NotZero()
    ensures Not(0) == ONES
  {
  }

  lemma NotNot(a: bv32)
    ensures Not(Not(a)) == a
  {
  }

  lemma HalfLinear(a: bv32, b: bv32)
    ensures Half(Xor(a, b)) == Xor(Half(a), Half(b))
  {
    calc {
      Half(Xor(a, b));
      (a ^ b) >> 1;
      (a >> 1) ^ (b >> 1);
      Xor(Half(a), Half(b));
    }
  }

  lemma OddLinear(a: bv32, b: bv32)
    ensures Odd(Xor(a, b)) <==> Odd(a) != Odd(b)
  {
    assert (a ^ b) & 1 == (a & 1) ^ (b & 1);
    assert a & 1 == 0 || a & 1 == 1;
    assert b & 1 == 0 || b & 1 == 1;
  }

  function Xor4(a: bv32, b: bv32, c: bv32, d: bv32): bv32 {
    Xor(Xor(a, b), Xor(c, d))
  }

  /** Exclusive or of a list of words. */
  function XorAll(ws: seq<bv32>): bv32 {
    if ws == [] then 0 else Xor(XorAll(ws[..|ws| - 1]), ws[|ws| - 1])
  }

  lemma {:induction false} XorAllAppend(a: seq<bv32>, b: seq<bv32>)
    ensures XorAll(a + b) == Xor(XorAll(a), XorAll(b))
    decreases |b|
  {
    hide Xor;
    if b == [] {
      assert a + b == a;
      XorZero(XorAll(a));
    } else {
      var n := |b| - 1;
      assert (a + b)[..|a + b| - 1] == a + b[..n];
      XorAllAppend(a, b[..n]);
      XorAssociates(XorAll(a), XorAll(b[..n]), b[n]);
    }
  }

  lemma XorAllOf4(a: bv32, b: bv32, c: bv32, d: bv32)
    ensures XorAll([a, b, c, d]) == Xor4(a, b, c, d)
  {
    hide Xor;
    XorZero(a);
    assert [a, b, c, d][..3] == [a, b, c] && [a, b, c][..2] == [a, b] && [a, b][..1] == [a] && [a][..0] == [];
    assert XorAll([a]) == a;
    assert XorAll([a, b, c]) == Xor(Xor(a, b), c);
    XorAssociates(Xor(a, b), c, d);
  }

  lemma Xor4Reversed(a: bv32, b: bv32, c: bv32, d: bv32)
    ensures Xor4(a, b, c, d) == Xor4(d, c, b, a)
  {
    hide Xor;
    XorCommutes(a, b);
    XorCommutes(c, d);
    XorCommutes(Xor(a, b), Xor(c, d));
  }

  lemma DoubleLinear(x: bv32, y: bv32)
    ensures Double(Xor(x, y)) == Xor(Double(x), Double(y))
  {
    calc {
      Double(Xor(x, y));
      (x ^ y) << 1;
      (x << 1) ^ (y << 1);
      Xor(Double(x), Double(y));
    }
  }

  lemma LowBitSplit(vec: bv32)
    ensures vec == Xor(if Odd(vec) then 1 else 0, Double(Half(vec)))
  {
  }

  /** x with its n low bits shifted out. */
  function Lowered(n: nat, x: bv32): bv32 {
    if n == 0 then x else Lowered(n - 1, Half(x))
  }

  lemma {:induction false} LoweredAdd(i: nat, j: nat, x: bv32)
    ensures Lowered(i + j, x) == Lowered(j, Lowered(i, x))
  {
    hide Half;
    if i != 0 {
      LoweredAdd(i - 1, j, Half(x));
    }
  }

  lemma LoweredBy8(x: bv32)
    ensures Lowered(8, x) == x >> 8
  {
    assert Lowered(1, x >> 7) == x >> 8;
    assert Lowered(2, x >> 6) == x >> 8;
    assert Lowered(3, x >> 5) == x >> 8;
    assert Lowered(4, x >> 4) == x >> 8;
    assert Lowered(5, x >> 3) == x >> 8;
    assert Lowered(6, x >> 2) == x >> 8;
    assert Lowered(7, x >> 1) == x >> 8;
  }

  lemma LoweredByEights(a: bv32, b: bv32, c: bv32, d: bv32, e: bv32)
    requires b == Lowered(8, a) && c == Lowered(8, b) && d == Lowered(8, c) && e == Lowered(8, d)
    ensures Lowered(32, a) == e
  {
    hide Lowered;
    LoweredAdd(8, 24, a);
    LoweredAdd(8, 16, b);
    LoweredAdd(8, 8, c);
  }

  function DropEight(x: bv32): bv32 {
    x >> 8
  }

  lemma DropEightIs(x: bv32)
    ensures Lowered(8, x) == DropEight(x)
  {
    LoweredBy8(x);
  }

  lemma ShiftsAway(x: bv32)
    ensures DropEight(DropEight(DropEight(DropEight(x)))) == 0
  {
  }

  /** The loops over the bits of a word stop within 32 turns. */
  lemma LoweredVanishes(x: bv32)
    ensures Lowered(32, x) == 0
  {
    hide Lowered, DropEight;
    var b := DropEight(x);
    DropEightIs(x);
    DropEightIs(b);
    DropEightIs(DropEight(b));
    DropEightIs(DropEight(DropEight(b)));
    ShiftsAway(x);
    LoweredByEights(x, b, DropEight(b), DropEight(DropEight(b)), 0);
  }
}
