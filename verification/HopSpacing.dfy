/** The shuffle spacing that kismet/capture_framework.c chooses when a channel list is assigned. */
module HopSpacing {
  import opened Cycles

  /** Where the search for a spacing that starts at s ends. */
  function Settle(n: nat, s: nat): (r: nat)
    requires 1 <= s <= n
    ensures r == 1 || (s <= r && 2 * r <= n && n % r != 0)
    decreases n - s
  {
    QuotientPositive(n, s);
    if n % (n / s) != 0 then
      NonDivisor(n, s);
      s
    else if s >= n - 1 then 1
    else Settle(n, s + 1)
  }

  /** The test of the loop. */
  predicate Passes(n: nat, s: nat)
    requires 1 <= s <= n
  {
    QuotientPositive(n, s);
    n % (n / s) != 0
  }

  /** The spacing found is the first from the requested one on that passes the test, or 1 if none does. */
  lemma {:induction false} SettleIsLeast(n: nat, s: nat)
    requires 1 <= s <= n
    ensures var r := Settle(n, s);
      if exists t: nat :: s <= t <= n && Passes(n, t)
      then s <= r <= n && Passes(n, r) && forall t: nat :: s <= t < r ==> !Passes(n, t)
      else r == 1
    decreases n - s
  {
    if !Passes(n, s) && s >= n - 1 {
      NoneAtEnd(n, s);
    } else if !Passes(n, s) {
      SettleIsLeast(n, s + 1);
    }
  }

  lemma NoneAtEnd(n: nat, s: nat)
    requires 1 <= s <= n && s >= n - 1 && !Passes(n, s)
    ensures forall t: nat :: s <= t <= n ==> !Passes(n, t)
  {
    DivIs(n, n, 1);
    ModIs(n, 1, n, 0);
  }

  /** It need not be the closest spacing that is no factor: 4 does not divide 10 and is passed over. */
  lemma ClosestSkipped()
    ensures 10 % 4 != 0 && !Passes(10, 4) && Settle(10, 4) == 1
  {
    assert Settle(10, 9) == 1 && Settle(10, 8) == 1 && Settle(10, 7) == 1;
    assert Settle(10, 6) == 1 && Settle(10, 5) == 1;
  }

  lemma QuotientPositive(n: nat, s: nat)
    requires 1 <= s <= n
    ensures n / s >= 1
  {
  }

  /** A spacing whose quotient is not a divisor is itself no divisor, and at most half the list. */
  lemma NonDivisor(n: nat, s: nat)
    requires 1 <= s <= n && n % (n / s) != 0
    ensures 2 * s <= n && n % s != 0
  {
    var q, r := DivMod(n, s);
    DivIsQuotient(n, s, q, r);
    if q == 1 {
      ModIs(n, 1, n, 0);
    }
    assert q >= 2;
    Distribute(q - 2, 2, s);
    if r == 0 {
      ModIs(n, q, s, 0);
    }
    ModIs(n, s, q, r);
  }

  lemma DivIsQuotient(n: nat, s: nat, q: nat, r: nat)
    requires s > 0 && n == q * s + r && r < s
    ensures n / s == q
  {
    var q' := n / s;
    ModIs(n, s, q, r);
    assert n == q' * s + r;
    CancelFactor(q, q', s);
  }

  ghost predicate Prime(n: nat) {
    n >= 2 && forall d: nat :: 1 < d < n ==> !Divides(d, n)
  }

  /** Lists of prime length are covered whatever spacing was asked for. */
  lemma PrimeListsCovered(n: nat, s: nat)
    requires Prime(n) && 1 <= s <= n
    ensures Gcd(Settle(n, s), n) == 1
  {
    hide Gcd, Settle;
    var step := Settle(n, s);
    var p, q := GcdDivides(step, n);
    var g := Gcd(step, n);
    assert Divides(g, n);
    if g >= n {
      if p >= 1 {
        MulGrows(p, g);
      }
    }
  }

  /** The comment on the loop promises full coverage; a list of 14 and a spacing of 4 passes its test
      and visits half the list. */
  lemma SpacingWithoutCoverage()
    ensures Settle(14, 4) == 4 && Gcd(4, 14) == 2
    ensures !Visited(0, 4, 14, 1)
  {
    assert Gcd(4, 14) == Gcd(14, 4) == Gcd(4, 2) == Gcd(2, 0) == 2;
    VisitedIffInClass(0, 4, 14, 1);
    forall q: int
      ensures 1 != q * 2
    {
      NoSmallMultiple(1, q, 2);
    }
  }

  /** Exactly when the assigned spacing covers the list. */
  lemma SpacingCovers(n: nat, s: nat, offset: nat)
    requires 1 <= s <= n
    ensures (forall p: nat :: p < n ==> Visited(offset, Settle(n, s), n, p)) <==> Gcd(Settle(n, s), n) == 1
  {
    hide Settle, Gcd, Visited;
    FullCoverage(offset, Settle(n, s), n);
  }

  /** The spacing `cf_handler_assign_hop_channels` stores for a list of n channels. */
  function AssignedSpacing(n: nat, shuffle: bool, spacing: nat): nat {
    if shuffle && spacing != 0 && n != 0 then Settle(n, if spacing > n then 1 else spacing) else spacing
  }

  /** What the loop is for: from the requested spacing, or from 1 if that exceeds the list, the first spacing
      that passes its test, or 1 if none does. */
  ghost predicate Chosen(n: nat, requested: nat, r: nat)
    requires n > 0 && requested > 0
  {
    var from := if requested > n then 1 else requested;
    || (from <= r <= n && Passes(n, r) && forall t: nat :: from <= t < r ==> !Passes(n, t))
    || (r == 1 && forall t: nat :: from <= t <= n ==> !Passes(n, t))
  }

  lemma AssignedIsChosen(n: nat, requested: nat)
    requires n > 0 && requested > 0
    ensures Chosen(n, requested, AssignedSpacing(n, true, requested))
  {
    hide Settle, Passes;
    SettleIsLeast(n, if requested > n then 1 else requested);
  }

  /** The loop that settles the spacing. */
  method SettleSpacing(chanSz: nat, requested: nat) returns (spacing: nat)
    requires 1 <= requested <= chanSz
    ensures spacing == Settle(chanSz, requested)
  {
    spacing := requested;
    QuotientPositive(chanSz, spacing);
    while chanSz % (chanSz / spacing) == 0
      invariant 1 <= spacing <= chanSz && chanSz / spacing >= 1
      invariant Settle(chanSz, spacing) == Settle(chanSz, requested)
      decreases chanSz - spacing
    {
      if spacing >= chanSz - 1 {
        return 1;
      }
      spacing := spacing + 1;
      QuotientPositive(chanSz, spacing);
    }
  }

  /** Twelve channels at a requested spacing of four are hopped one by one. */
  lemma TwelveByFour()
    ensures Chosen(12, 4, 1) && !Chosen(12, 4, 4)
  {
    forall t: nat | 4 <= t <= 12
      ensures !Passes(12, t)
    {
      assert t == 4 || t == 5 || t == 6 || t == 7 || t == 8 || t == 9 || t == 10 || t == 11 || t == 12;
    }
    assert !Passes(12, 4);
  }

  /** A chosen spacing has no common factor with a list of prime length. */
  lemma ChosenCoversPrime(n: nat, requested: nat, r: nat)
    requires Prime(n) && requested > 0 && Chosen(n, requested, r)
    ensures Gcd(r, n) == 1
  {
    hide Gcd;
    var p, q := GcdDivides(r, n);
    var g := Gcd(r, n);
    assert Divides(g, n);
    if r > 1 {
      NonDivisor(n, r);
    }
    if g >= n && p >= 1 {
      MulGrows(p, g);
    }
  }
}
