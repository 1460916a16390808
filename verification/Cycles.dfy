/** Arithmetic of stepping round a list: which of n positions a fixed step visits, and how often. */
module Cycles {

  ghost predicate Divides(d: int, a: int) {
    exists q :: a == q * d
  }

  /** Euclid's greatest common divisor. */
  function Gcd(a: nat, b: nat): (g: nat)
    ensures a > 0 || b > 0 ==> g > 0
    decreases b
  {
    if b == 0 then a else Gcd(b, a % b)
  }

  lemma Distribute(a: int, b: int, c: int)
    ensures (a + b) * c == a * c + b * c && (a - b) * c == a * c - b * c
  {
  }

  lemma Reassociate(a: int, b: int, c: int)
    ensures (a * b) * c == a * (b * c) && (a * b) * c == (a * c) * b
  {
  }

  lemma {:induction false} GcdDivides(a: nat, b: nat) returns (p: nat, q: nat)
    ensures a == p * Gcd(a, b) && b == q * Gcd(a, b)
    decreases b
  {
    if b == 0 {
      p, q := 1, 0;
    } else {
      var u, v := GcdDivides(b, a % b);
      var k, g := a / b, Gcd(a, b);
      assert a == k * b + a % b;
      Reassociate(k, u, g);
      Distribute(k * u, v, g);
      p, q := k * u + v, u;
    }
  }

  /** Bezout coefficients. */
  lemma {:induction false} Bezout(a: nat, b: nat) returns (x: int, y: int)
    ensures a * x + b * y == Gcd(a, b)
    decreases b
  {
    if b == 0 {
      x, y := 1, 0;
    } else {
      var u, v := Bezout(b, a % b);
      var k := a / b;
      assert a % b == a - k * b;
      Distribute(a, k * b, v);
      Reassociate(k, b, v);
      Reassociate(b, k, v);
      Distribute(u, k * v, b);
      x, y := v, u - k * v;
    }
  }

  lemma MulGrows(k: int, n: nat)
    requires k >= 1
    ensures k * n >= n
  {
    Distribute(k - 1, 1, n);
  }

  lemma ModIs(a: int, n: nat, q: int, r: int)
    requires n > 0 && a == q * n + r && 0 <= r < n
    ensures a % n == r
  {
    var q', r' := a / n, a % n;
    assert a == q' * n + r';
    Distribute(q, q', n);
    Distribute(q', q, n);
    if q > q' {
      MulGrows(q - q', n);
    } else if q < q' {
      MulGrows(q' - q, n);
    }
  }

  /** The position after k steps of size s from offset o. */
  function Position(o: nat, s: nat, n: nat, k: nat): nat
    requires n > 0
  {
    (o + k * s) % n
  }

  /** After this many steps the positions repeat. */
  function Period(s: nat, n: nat): nat
    requires n > 0
  {
    n / Gcd(s, n)
  }

  lemma PeriodFactors(s: nat, n: nat) returns (a: nat, m: nat)
    requires n > 0
    ensures m == Period(s, n) > 0
    ensures s == a * Gcd(s, n) && n == m * Gcd(s, n)
  {
    a, m := GcdDivides(s, n);
    var g := Gcd(s, n);
    DivIs(n, g, m);
  }

  lemma DivIs(n: nat, g: nat, m: nat)
    requires g > 0 && n == m * g
    ensures n / g == m
  {
    ModIs(n, g, m, 0);
    var d := n / g;
    assert n == d * g;
    Distribute(m, d, g);
    Distribute(d, m, g);
    if m > d {
      MulGrows(m - d, g);
    } else if m < d {
      MulGrows(d - m, g);
    }
  }

  lemma PeriodIsAll(s: nat, n: nat)
    requires n > 0 && Gcd(s, n) == 1
    ensures Period(s, n) == n
  {
    DivIs(n, 1, n);
  }

  lemma DivMod(a: int, n: nat) returns (q: int, r: nat)
    requires n > 0
    ensures a == q * n + r && r < n
  {
    q, r := a / n, a % n;
  }

  /** A remainder may be taken before an addition or after it. */
  lemma Absorb(x: nat, y: nat, n: nat)
    requires n > 0
    ensures (x % n + y) % n == (x + y) % n
  {
    var q, r := DivMod(x, n);
    var z, t := DivMod(r + y, n);
    ModIs(x, n, q, r);
    ModIs(r + y, n, z, t);
    Distribute(q, z, n);
    ModIs(x + y, n, q + z, t);
  }

  lemma PositionTurns(o: nat, s: nat, n: nat, k: nat) returns (q: nat)
    requires n > 0
    ensures o + k * s == q * n + Position(o, s, n, k) && Position(o, s, n, k) < n
  {
    q := (o + k * s) / n;
  }

  lemma PositionIs(o: nat, s: nat, n: nat, k: nat, q: int, p: nat)
    requires n > 0 && p < n && o + k * s == q * n + p
    ensures Position(o, s, n, k) == p
  {
    ModIs(o + k * s, n, q, p);
  }

  /** Every visited position is congruent to the offset. */
  lemma VisitedInClass(o: nat, s: nat, n: nat, k: nat)
    requires n > 0
    ensures Divides(Gcd(s, n), Position(o, s, n, k) - o)
  {
    hide Position, Gcd, Period;
    var a, m := PeriodFactors(s, n);
    var g := Gcd(s, n);
    var q := PositionTurns(o, s, n, k);
    Reassociate(k, a, g);
    Reassociate(q, m, g);
    Distribute(k * a, q * m, g);
    assert Position(o, s, n, k) - o == (k * a - q * m) * g;
  }

  /** Every position of the class is visited, within the first period. */
  lemma ClassVisited(o: nat, s: nat, n: nat, p: nat) returns (k: nat)
    requires n > 0 && p < n && Divides(Gcd(s, n), p - o)
    ensures k < Period(s, n) && Position(o, s, n, k) == p
  {
    hide Position, Gcd, Period;
    var a, m := PeriodFactors(s, n);
    var g := Gcd(s, n);
    var x, y := Bezout(s, n);
    var t :| p - o == t * g;
    var c, r := DivMod(t * x, m);
    k := r;
    StepsTurn(s, n, g, a, m, x, y, t, c, k);
    Distribute(0, t * y + c * a, n);
    PositionIs(o, s, n, k, -(t * y + c * a), p);
  }

  lemma StepsTurn(s: int, n: int, g: int, a: int, m: int, x: int, y: int, t: int, c: int, k: int)
    requires s == a * g && n == m * g && s * x + n * y == g && t * x == c * m + k
    ensures k * s == t * g - (t * y + c * a) * n
  {
    calc {
      k * s;
      { Distribute(t * x, c * m, s); }
      (t * x) * s - (c * m) * s;
      { Reassociate(t, x, s); Reassociate(c, m, s); }
      t * (x * s) - c * (m * s);
      { assert x * s == g - n * y; Distribute(g, n * y, t); }
      t * g - t * (n * y) - c * (m * s);
      { Reassociate(t, y, n); Reassociate(m, a, g); assert m * s == a * n by { Reassociate(a, m, g); } Reassociate(c, a, n); }
      t * g - (t * y) * n - (c * a) * n;
      { Distribute(t * y, c * a, n); }
      t * g - (t * y + c * a) * n;
    }
  }

  /** No position is visited twice within a period. */
  lemma VisitedOnce(o: nat, s: nat, n: nat, j: nat, k: nat)
    requires n > 0 && j < k < j + Period(s, n)
    ensures Position(o, s, n, j) != Position(o, s, n, k)
  {
    hide Position, Gcd, Period;
    var a, m := PeriodFactors(s, n);
    if Position(o, s, n, j) == Position(o, s, n, k) {
      var x, y := Bezout(s, n);
      var q := PositionTurns(o, s, n, j);
      var q' := PositionTurns(o, s, n, k);
      Distribute(k, j, s);
      Distribute(q', q, n);
      CancelSteps(k - j, s, n, Gcd(s, n), m, x, y, q' - q);
      NoSmallMultiple(k - j, (q' - q) * x + (k - j) * y, m);
    }
  }

  lemma NoSmallMultiple(d: int, z: int, m: nat)
    requires 0 < d < m
    ensures d != z * m
  {
    if z >= 1 {
      MulGrows(z, m);
    } else {
      Distribute(0, -z, m);
    }
  }

  lemma CancelSteps(d: int, s: int, n: int, g: int, m: int, x: int, y: int, q: int)
    requires g > 0 && n == m * g && s * x + n * y == g && d * s == q * n
    ensures d == (q * x + d * y) * m
  {
    calc {
      d * g;
      { Distribute(s * x, n * y, d); }
      d * (s * x) + d * (n * y);
      { Reassociate(d, s, x); Reassociate(d, y, n); }
      (q * n) * x + (d * y) * n;
      { Reassociate(q, n, x); Distribute(q * x, d * y, n); }
      (q * x + d * y) * n;
      { Reassociate(q * x + d * y, m, g); }
      ((q * x + d * y) * m) * g;
    }
    CancelFactor(d, (q * x + d * y) * m, g);
  }

  lemma CancelFactor(u: int, v: int, g: int)
    requires g > 0 && u * g == v * g
    ensures u == v
  {
    Distribute(u, v, g);
    Distribute(v, u, g);
    if u > v {
      MulGrows(u - v, g);
    } else if u < v {
      MulGrows(v - u, g);
    }
  }

  lemma PositionFrom(o: nat, s: nat, n: nat, k: nat, i: nat)
    requires n > 0
    ensures Position(o + k * s, s, n, i) == Position(o, s, n, k + i)
  {
    Distribute(k, i, s);
  }

  /** The positions visited are exactly those congruent to the offset modulo gcd(s, n), each of them
      exactly once in any n / gcd(s, n) consecutive steps. */
  lemma VisitsClassOnce(o: nat, s: nat, n: nat, first: nat, p: nat)
    requires n > 0 && p < n
    ensures (exists k :: first <= k < first + Period(s, n) && Position(o, s, n, k) == p) <==> Divides(Gcd(s, n), p - o)
    ensures forall j, k :: first <= j < k < first + Period(s, n) ==> Position(o, s, n, j) != Position(o, s, n, k)
  {
    hide Position, Gcd, Period;
    forall j, k | first <= j < k < first + Period(s, n)
      ensures Position(o, s, n, j) != Position(o, s, n, k)
    {
      VisitedOnce(o, s, n, j, k);
    }
    if Divides(Gcd(s, n), p - o) {
      ShiftClass(o, s, n, first, p);
      var i := ClassVisited(o + first * s, s, n, p);
      PositionFrom(o, s, n, first, i);
    }
    if k :| first <= k < first + Period(s, n) && Position(o, s, n, k) == p {
      VisitedInClass(o, s, n, k);
    }
  }

  lemma ShiftClass(o: nat, s: nat, n: nat, first: nat, p: nat)
    requires n > 0 && Divides(Gcd(s, n), p - o)
    ensures Divides(Gcd(s, n), p - (o + first * s))
  {
    hide Gcd, Period;
    var a, m := PeriodFactors(s, n);
    var g := Gcd(s, n);
    var t :| p - o == t * g;
    Reassociate(first, a, g);
    Distribute(t, first * a, g);
    assert p - (o + first * s) == (t - first * a) * g;
  }

  /** Position p is visited at some time. */
  ghost predicate Visited(o: nat, s: nat, n: nat, p: nat)
    requires n > 0
  {
    exists k: nat :: Position(o, s, n, k) == p
  }

  lemma VisitedIffInClass(o: nat, s: nat, n: nat, p: nat)
    requires n > 0 && p < n
    ensures Visited(o, s, n, p) <==> Divides(Gcd(s, n), p - o)
  {
    hide Position, Gcd, Period;
    if Divides(Gcd(s, n), p - o) {
      var k := ClassVisited(o, s, n, p);
    }
    if k: nat :| Position(o, s, n, k) == p {
      VisitedInClass(o, s, n, k);
    }
  }

  /** Coverage is full exactly when step and list size are coprime. */
  lemma FullCoverage(o: nat, s: nat, n: nat)
    requires n > 0
    ensures (forall p: nat :: p < n ==> Visited(o, s, n, p)) <==> Gcd(s, n) == 1
  {
    hide Gcd, Visited;
    if Gcd(s, n) == 1 {
      forall p: nat | p < n
        ensures Visited(o, s, n, p)
      {
        assert p - o == (p - o) * 1;
        VisitedIffInClass(o, s, n, p);
      }
    }
    if forall p: nat :: p < n ==> Visited(o, s, n, p) {
      var q, r := DivMod(o + 1, n);
      VisitedIffInClass(o, s, n, r);
      assert Visited(o, s, n, r);
      NeighbourForcesOne(o, s, n, q, r);
    }
  }

  lemma NeighbourForcesOne(o: nat, s: nat, n: nat, q: int, r: nat)
    requires n > 0 && o + 1 == q * n + r && Divides(Gcd(s, n), r - o)
    ensures Gcd(s, n) == 1
  {
    hide Gcd, Period;
    var a, m := PeriodFactors(s, n);
    var g := Gcd(s, n);
    var t :| r - o == t * g;
    Reassociate(q, m, g);
    Distribute(t, q * m, g);
    assert 1 == (t + q * m) * g;
    if g > 1 {
      NoSmallMultiple(1, t + q * m, g);
    }
  }

  /** A gcd is the greatest common divisor. */
  lemma GcdIsGreatest(a: nat, b: nat, d: nat)
    ensures Divides(d, a) && Divides(d, b) <==> Divides(d, Gcd(a, b))
  {
    hide Gcd;
    var p, q := GcdDivides(a, b);
    var x, y := Bezout(a, b);
    if Divides(d, a) && Divides(d, b) {
      var i :| a == i * d;
      var j :| b == j * d;
      Reassociate(i, d, x);
      Reassociate(j, d, y);
      Distribute(i * x, j * y, d);
      assert Gcd(a, b) == (i * x + j * y) * d;
    }
    if Divides(d, Gcd(a, b)) {
      var i :| Gcd(a, b) == i * d;
      Reassociate(p, i, d);
      Reassociate(q, i, d);
      assert a == (p * i) * d && b == (q * i) * d;
    }
  }
}
