/** Which channels the hopping thread of kismet/capture_framework.c tunes to, when it prunes, and what failures
    left over from an earlier channel list do to a new one. */
module HopRuns {
  import opened Cycles
  import opened HopScheduler
  import opened HopSpacing

  // ----- while nothing is pruned -----

  /** The thread still runs, over the lists it started with. */
  ghost predicate Undisturbed<C, P>(h: Hop<C, P>, h': Hop<C, P>) {
    h'.names == h.names && h'.privs == h.privs && h'.status == Hopping
  }

  /** The lists can only shrink, together, and a thread that has stopped changes nothing. */
  lemma TurnShape<C, P>(h: Hop<C, P>, r: int)
    requires Parallel(h)
    ensures var h' := Turn(h, r);
      && h'.step == h.step && |h'.names| <= |h.names|
      && (|h'.names| == |h.names| ==> h'.names == h.names && h'.privs == h.privs)
      && (h.status != Hopping ==> h' == h)
      && (h'.status == Hopping ==> r >= 0)
  {
    hide Copied;
  }

  lemma {:induction false} RunShape<C, P>(h: Hop<C, P>, results: seq<int>)
    requires Parallel(h)
    ensures var h' := Run(h, results);
      && h'.step == h.step && |h'.names| <= |h.names|
      && (|h'.names| == |h.names| ==> h'.names == h.names && h'.privs == h.privs)
      && (h.status != Hopping ==> h' == h)
    decreases |results|
  {
    hide Turn;
    if results != [] {
      RunShape(h, results[..|results| - 1]);
      TurnShape(Run(h, results[..|results| - 1]), results[|results| - 1]);
    }
  }

  lemma RunNext<C, P>(h: Hop<C, P>, results: seq<int>, k: nat)
    requires Parallel(h) && k < |results|
    ensures Run(h, results[..k + 1]) == Turn(Run(h, results[..k]), results[k])
  {
    hide Turn;
    assert results[..k + 1][..k] == results[..k];
  }

  /** A run that ends undisturbed was so all along. */
  lemma {:induction false} UndisturbedBefore<C, P>(h: Hop<C, P>, results: seq<int>, k: nat)
    requires Parallel(h) && k <= |results| && Undisturbed(h, Run(h, results))
    ensures Undisturbed(h, Run(h, results[..k]))
    decreases |results|
  {
    hide Turn;
    if k == |results| {
      assert results[..k] == results;
    } else {
      var n := |results| - 1;
      RunShape(h, results[..n]);
      TurnShape(Run(h, results[..n]), results[n]);
      UndisturbedBefore(h, results[..n], k);
      assert results[..n][..k] == results[..k];
    }
  }

  /** An undisturbed turn moves on by one step, and forgets no failure. */
  lemma UndisturbedTurn<C, P>(h: Hop<C, P>, r: int)
    requires Parallel(h) && Undisturbed(h, Turn(h, r))
    ensures Turn(h, r).hoppos == (h.hoppos + h.step) % TWO_64
    ensures h.failures != [] ==> Turn(h, r).failures != []
  {
    hide Copied;
  }

  /** The position of the thread in 64 bits, after k undisturbed turns. */
  function HopAt(o: nat, s: nat, k: nat): nat {
    (o + k * s) % TWO_64
  }

  lemma HopNext(o: nat, s: nat, k: nat)
    ensures (HopAt(o, s, k) + s) % TWO_64 == HopAt(o, s, k + 1)
  {
    Absorb(o + k * s, s, TWO_64);
    Distribute(k, 1, s);
  }

  lemma {:induction false} UndisturbedRun<C, P>(h: Hop<C, P>, results: seq<int>)
    requires Parallel(h) && h.hoppos < TWO_64 && Undisturbed(h, Run(h, results))
    ensures Run(h, results).hoppos == HopAt(h.hoppos, h.step, |results|)
    ensures h.failures != [] ==> Run(h, results).failures != []
    decreases |results|
  {
    hide Turn;
    if results == [] {
      ModIs(h.hoppos, TWO_64, 0, h.hoppos);
    } else {
      var n := |results| - 1;
      var before := Run(h, results[..n]);
      UndisturbedBefore(h, results, n);
      UndisturbedRun(h, results[..n]);
      RunShape(h, results[..n]);
      UndisturbedTurn(before, results[n]);
      HopNext(h.hoppos, h.step, n);
    }
  }

  lemma PositionDefinition(o: nat, s: nat, n: nat, k: nat)
    requires n > 0
    ensures Position(o, s, n, k) == (o + k * s) % n
  {
  }

  lemma TunedIs<C, P>(h: Hop<C, P>, o: nat, s: nat, n: nat, k: nat)
    requires |h.names| == n > 0 && h.hoppos == o + k * s
    ensures Tuned(h) == Position(o, s, n, k)
  {
  }

  lemma HopWithoutWrap(o: nat, s: nat, k: nat)
    requires o + k * s < TWO_64
    ensures o < TWO_64 && HopAt(o, s, k) == o + k * s
  {
    Distribute(k, 0, s);
    StepsBelow(0, k, s);
    ModIs(o + k * s, TWO_64, 0, o + k * s);
  }

  lemma HopsAt<C, P>(h: Hop<C, P>, results: seq<int>, k: nat)
    requires Parallel(h) && Undisturbed(h, Run(h, results)) && k == |results|
    requires h.hoppos + k * h.step < TWO_64
    ensures Tuned(Run(h, results)) == Position(h.hoppos, h.step, |h.names|, k)
  {
    hide *;
    HopWithoutWrap(h.hoppos, h.step, k);
    UndisturbedRun(h, results);
    UndisturbedFields(h, Run(h, results));
    TunedIs(Run(h, results), h.hoppos, h.step, |h.names|, k);
  }

  lemma UndisturbedFields<C, P>(h: Hop<C, P>, h': Hop<C, P>)
    requires Parallel(h) && Undisturbed(h, h')
    ensures h'.names == h.names && |h.names| > 0
  {
  }

  lemma BelowWrap(x: nat)
    ensures x < TWO_64 <==> x < 0x1_0000_0000_0000_0000
  {
  }

  /** The channels tuned are those of stepping round the list, from any offset and by any step. */
  lemma HopsTo<C, P>(h: Hop<C, P>, results: seq<int>, k: nat)
    requires Parallel(h) && Undisturbed(h, Run(h, results)) && k <= |results|
    requires h.hoppos + k * h.step < 0x1_0000_0000_0000_0000
    ensures Undisturbed(h, Run(h, results[..k]))
    ensures Tuned(Run(h, results[..k])) == Position(h.hoppos, h.step, |h.names|, k)
  {
    hide *;
    BelowWrap(h.hoppos + k * h.step);
    UndisturbedBefore(h, results, k);
    HopsAt(h, results[..k], k);
  }

  /** So in any n / gcd(step, n) turns in a row exactly the channels congruent to the offset modulo the gcd
      are tuned, each of them once. */
  lemma HopsVisitClass<C, P>(h: Hop<C, P>, results: seq<int>, first: nat, p: nat)
    requires Parallel(h) && Undisturbed(h, Run(h, results)) && p < |h.names|
    requires first + Period(h.step, |h.names|) <= |results| && h.hoppos + |results| * h.step < TWO_64
    ensures
      var end := first + Period(h.step, |h.names|);
      && ((exists k :: first <= k < end && Tuned(Run(h, results[..k])) == p)
          <==> Divides(Gcd(h.step, |h.names|), p - h.hoppos))
      && (forall j, k :: first <= j < k < end ==> Tuned(Run(h, results[..j])) != Tuned(Run(h, results[..k])))
  {
    hide Run, Tuned, Position, Period, Gcd, Undisturbed;
    var end := first + Period(h.step, |h.names|);
    forall k | first <= k < end
      ensures Tuned(Run(h, results[..k])) == Position(h.hoppos, h.step, |h.names|, k)
    {
      StepsBelow(k, |results|, h.step);
      HopsTo(h, results, k);
    }
    VisitsClassOnce(h.hoppos, h.step, |h.names|, first, p);
  }

  /** After the assignment of a prime number of channels to shuffle, every one of them is tuned within as many
      undisturbed turns. */
  lemma PrimeAssignmentTunesAll<C, P>(h: Hop<C, P>, requested: nat, results: seq<int>, p: nat)
    requires Parallel(h) && Prime(|h.names|) && requested > 0 && Chosen(|h.names|, requested, h.step)
    requires |results| >= |h.names| && Undisturbed(h, Run(h, results)) && h.hoppos + |results| * h.step < TWO_64
    requires p < |h.names|
    ensures exists k :: 0 <= k < |h.names| && Tuned(Run(h, results[..k])) == p
  {
    hide Run, Tuned, Gcd, Period, Undisturbed, Chosen;
    ChosenCoversPrime(|h.names|, requested, h.step);
    PeriodIsAll(h.step, |h.names|);
    assert p - h.hoppos == (p - h.hoppos) * 1;
    HopsVisitClass(h, results, 0, p);
  }

  lemma StepsBelow(k: nat, n: nat, s: nat)
    requires k <= n
    ensures k * s <= n * s
  {
    Distribute(n, k, s);
  }

  // ----- when it prunes -----

  /** Back at position 0 with a failure recorded, the thread does not go on as before. */
  lemma ZeroDisturbs<C, P>(h: Hop<C, P>, r: int)
    requires Parallel(h) && h.failures != [] && (h.hoppos + h.step) % TWO_64 % |h.names| == 0
    ensures !Undisturbed(h, Turn(h, r))
  {
    hide Copied;
  }

  /** Anywhere else nothing is pruned. */
  lemma ElsewhereKeeps<C, P>(h: Hop<C, P>, r: int)
    requires Parallel(h) && h.status == Hopping && (h.hoppos + h.step) % TWO_64 % |h.names| != 0
    ensures Turn(h, r).names == h.names && Turn(h, r).privs == h.privs
    ensures Turn(h, r).status == if r < 0 then CallbackFailed else Hopping
  {
    hide Copied;
  }

  /** If the gcd does not divide the offset, no run short of the 64-bit wrap changes the lists. */
  lemma {:induction false} NeverPrunes<C, P>(h: Hop<C, P>, results: seq<int>)
    requires Parallel(h) && h.status == Hopping && h.hoppos + |results| * h.step < TWO_64
    requires !Divides(Gcd(h.step, |h.names|), h.hoppos)
    ensures var h' := Run(h, results);
      h'.names == h.names && h'.privs == h.privs && (h'.status == Hopping || h'.status == CallbackFailed)
    decreases |results|
  {
    hide Turn, Gcd, Position;
    if results != [] {
      var n := |results| - 1;
      var before := Run(h, results[..n]);
      Distribute(n, 1, h.step);
      NeverPrunes(h, results[..n]);
      if before.status == Hopping {
        UndisturbedRun(h, results[..n]);
        RunShape(h, results[..n]);
        ModIs(h.hoppos + n * h.step, TWO_64, 0, h.hoppos + n * h.step);
        ModIs(h.hoppos + |results| * h.step, TWO_64, 0, h.hoppos + |results| * h.step);
        ZeroNotVisited(h.hoppos, h.step, |h.names|, |results|);
        ElsewhereKeeps(before, results[n]);
      } else {
        TurnShape(before, results[n]);
      }
    }
  }

  lemma ZeroNotVisited(o: nat, s: nat, n: nat, k: nat)
    requires n > 0 && !Divides(Gcd(s, n), o)
    ensures (o + k * s) % n != 0
  {
    hide Gcd;
    VisitedInClass(o, s, n, k);
    if Position(o, s, n, k) == 0 {
      DividesNegated(Gcd(s, n), o);
    }
  }

  lemma DividesNegated(d: int, a: int)
    ensures Divides(d, -a) <==> Divides(d, a)
  {
    if Divides(d, -a) {
      var q :| -a == q * d;
      Distribute(0, q, d);
      assert a == (-q) * d;
    }
    if Divides(d, a) {
      var q :| a == q * d;
      Distribute(0, q, d);
      assert -a == (-q) * d;
    }
  }

  /** If it does divide the offset, a recorded failure is pruned, or the thread stops, within one period. */
  lemma PrunesWithinPeriod<C, P>(h: Hop<C, P>, results: seq<int>)
    requires Parallel(h) && h.status == Hopping && h.failures != []
    requires Divides(Gcd(h.step, |h.names|), h.hoppos)
    requires |results| >= Period(h.step, |h.names|) && h.hoppos + Period(h.step, |h.names|) * h.step < TWO_64
    ensures var h' := Run(h, results); |h'.names| < |h.names| || h'.status != Hopping
  {
    hide Turn, Run, Gcd, Period, Position;
    RunShape(h, results);
    if Undisturbed(h, Run(h, results)) {
      DividesNegated(Gcd(h.step, |h.names|), h.hoppos);
      VisitsClassOnce(h.hoppos, h.step, |h.names|, 1, 0);
      var k :| 1 <= k < 1 + Period(h.step, |h.names|) && Position(h.hoppos, h.step, |h.names|, k) == 0;
      StepsBelow(k, Period(h.step, |h.names|), h.step);
      ModIs(h.hoppos + k * h.step, TWO_64, 0, h.hoppos + k * h.step);
      PositionDefinition(h.hoppos, h.step, |h.names|, k);
      ReturnDisturbs(h, results, k);
    }
  }

  /** No run with a failure recorded from the start stays undisturbed beyond a return to position 0. */
  lemma ReturnDisturbs<C, P>(h: Hop<C, P>, results: seq<int>, k: nat)
    requires Parallel(h) && h.hoppos < TWO_64 && h.failures != []
    requires 1 <= k <= |results| && HopAt(h.hoppos, h.step, k) % |h.names| == 0
    ensures !Undisturbed(h, Run(h, results))
  {
    hide Turn, Run, HopAt;
    if Undisturbed(h, Run(h, results)) {
      UndisturbedBefore(h, results, k);
      UndisturbedBefore(h, results, k - 1);
      UndisturbedRun(h, results[..k - 1]);
      RunShape(h, results[..k - 1]);
      RunNext(h, results, k - 1);
      HopNext(h.hoppos, h.step, k - 1);
      ZeroDisturbs(Run(h, results[..k - 1]), results[k - 1]);
    }
  }

  // ----- failures left over from an earlier list -----

  /** The thread comes back to position 0 at some time, 64-bit wrap included. */
  ghost predicate Returns(o: nat, s: nat, n: nat)
    requires n > 0
  {
    exists k: nat :: k > 0 && HopAt(o, s, k) % n == 0
  }

  /** Every tuning succeeds. */
  predicate AllTuned(results: seq<int>) {
    forall i :: 0 <= i < |results| ==> results[i] > 0
  }

  lemma TunedTurn<C, P>(h: Hop<C, P>, r: int)
    requires Parallel(h) && h.status == Hopping && r > 0
    requires h.failures == [] || (h.hoppos + h.step) % TWO_64 % |h.names| != 0
    ensures Undisturbed(h, Turn(h, r)) && Turn(h, r).failures == h.failures
  {
    hide Copied;
  }

  lemma {:induction false} TunedRun<C, P>(h: Hop<C, P>, results: seq<int>)
    requires Parallel(h) && h.status == Hopping && h.hoppos < TWO_64 && AllTuned(results)
    requires h.failures == [] || !Returns(h.hoppos, h.step, |h.names|)
    ensures Undisturbed(h, Run(h, results)) && Run(h, results).failures == h.failures
    decreases |results|
  {
    hide Turn, HopAt;
    if results != [] {
      var n := |results| - 1;
      var before := Run(h, results[..n]);
      TunedRun(h, results[..n]);
      UndisturbedRun(h, results[..n]);
      RunShape(h, results[..n]);
      HopNext(h.hoppos, h.step, n);
      TunedTurn(before, results[n]);
    }
  }

  /** No run in which every tuning succeeds loses a channel or stops the thread, exactly when no failure is
      recorded at its start or the thread never comes back to position 0. */
  lemma LeftoversHarmlessIff<C, P>(h: Hop<C, P>)
    requires Parallel(h) && h.status == Hopping && h.hoppos < TWO_64
    ensures (forall results :: AllTuned(results) ==> Undisturbed(h, Run(h, results)))
       <==> h.failures == [] || !Returns(h.hoppos, h.step, |h.names|)
  {
    hide Run, HopAt, Undisturbed, AllTuned;
    if h.failures == [] || !Returns(h.hoppos, h.step, |h.names|) {
      forall results | AllTuned(results)
        ensures Undisturbed(h, Run(h, results))
      {
        TunedRun(h, results);
      }
    } else {
      var k: nat :| k > 0 && HopAt(h.hoppos, h.step, k) % |h.names| == 0;
      var results := seq(k, _ => 1);
      AllOnes(k);
      ReturnDisturbs(h, results, k);
      assert AllTuned(results) && !Undisturbed(h, Run(h, results));
    }
  }

  lemma AllOnes(k: nat)
    ensures AllTuned(seq(k, _ => 1))
  {
  }

  /** Coming back to position 0 is a matter of common factors: those of step, list size and 2 to the 64. */
  lemma ReturnsIff(o: nat, s: nat, n: nat)
    requires 0 < n < 0x1_0000_0000 && 0 < s < 0x1_0000_0000
    ensures Returns(o, s, n) <==> Divides(Gcd(n, Gcd(s, 0x1_0000_0000_0000_0000)), o)
  {
    hide Gcd, HopAt, Period;
    var g := Gcd(s, TWO_64);
    if k: nat :| k > 0 && HopAt(o, s, k) % n == 0 {
      ReturnDivides(o, s, n, k);
    }
    if Divides(Gcd(n, g), o) {
      var j := MultipleInClass(o, n, g);
      GcdAtMost(s, TWO_64);
      ProductBelow(j, n, g);
      ReachesMultiple(o, s, n, j);
    }
  }

  lemma Quotient(d: int, a: int) returns (q: int)
    requires Divides(d, a)
    ensures a == q * d
  {
    q :| a == q * d;
  }

  /** The position at a return is a multiple of n, and congruent to o modulo g. */
  lemma ReturnDivides(o: nat, s: nat, n: nat, k: nat)
    requires n > 0 && HopAt(o, s, k) % n == 0
    ensures Divides(Gcd(n, Gcd(s, TWO_64)), o)
  {
    hide Gcd, Position, HopAt;
    var g := Gcd(s, TWO_64);
    var x := HopAt(o, s, k);
    HopIsPosition(o, s, k);
    VisitedInClass(o, s, TWO_64, k);
    var t := Quotient(g, x - o);
    var c, r := DivMod(x, n);
    ModIs(x, n, c, r);
    var u, v := GcdDivides(n, g);
    var d := Gcd(n, g);
    Reassociate(c, u, d);
    Reassociate(t, v, d);
    Distribute(c * u, t * v, d);
    assert o == (c * u - t * v) * d;
  }

  lemma HopIsPosition(o: nat, s: nat, k: nat)
    ensures HopAt(o, s, k) == Position(o, s, TWO_64, k)
  {
  }

  /** A multiple of n below n * g that is congruent to o modulo g. */
  lemma MultipleInClass(o: nat, n: nat, g: nat) returns (j: nat)
    requires n > 0 && g > 0 && Divides(Gcd(n, g), o)
    ensures j < g && Divides(g, j * n - o)
  {
    hide Gcd, Position, Period;
    var d := Gcd(n, g);
    var u, v := GcdDivides(n, g);
    var e := Quotient(d, o);
    var q, p := DivMod(o, g);
    Reassociate(q, v, d);
    Distribute(e, q * v, d);
    assert p - 0 == (e - q * v) * d;
    j := ClassVisited(0, n, g, p);
    PeriodAtMost(n, g);
    var q' := PositionTurns(0, n, g, j);
    Distribute(q', q, g);
    assert j * n - o == (q' - q) * g;
  }

  lemma PeriodAtMost(s: nat, n: nat)
    requires n > 0
    ensures Period(s, n) <= n
  {
    hide Gcd, Period;
    var a, m := PeriodFactors(s, n);
    Reassociate(m, 1, Gcd(s, n));
    MulGrows(Gcd(s, n), m);
  }

  lemma GcdAtMost(s: nat, n: nat)
    requires s > 0
    ensures 0 < Gcd(s, n) <= s
  {
    hide Gcd;
    var p, q := GcdDivides(s, n);
    if p > 0 {
      MulGrows(p, Gcd(s, n));
    }
  }

  lemma ProductBelow(j: nat, n: nat, g: nat)
    requires j < g < TWO_32 && 0 < n < TWO_32
    ensures j * n < TWO_64
  {
    Distribute(TWO_32, j, n);
    MulGrows(TWO_32 - j, n);
    Distribute(TWO_32, n, TWO_32);
    MulGrows(TWO_32 - n, TWO_32);
  }

  lemma ReachesMultiple(o: nat, s: nat, n: nat, j: nat)
    requires n > 0 && j * n < TWO_64 && Divides(Gcd(s, TWO_64), j * n - o)
    ensures Returns(o, s, n)
  {
    hide Gcd, Position, Period, HopAt;
    var m := j * n;
    VisitsClassOnce(o, s, TWO_64, 1, m);
    var k :| 1 <= k < 1 + Period(s, TWO_64) && Position(o, s, TWO_64, k) == m;
    HopIsPosition(o, s, k);
    ModIs(m, n, j, 0);
  }

  /** With a step of 0 the position never changes. */
  lemma ReturnsByStandingStill(o: nat, n: nat)
    requires n > 0 && o < TWO_64
    ensures Returns(o, 0, n) <==> o % n == 0
  {
    forall k: nat
      ensures HopAt(o, 0, k) == o
    {
      ModIs(o, TWO_64, 0, o);
    }
    assert HopAt(o, 0, 1) == o;
  }

  /** After an assignment: when the failures recorded for the old list can do the new one no harm. */
  lemma ReassignHarmlessIff<C, P>(h: Hop<C, P>, names: seq<C>, privs: seq<P>, offset: nat, step: nat)
    requires h.failuresSz == |h.failures| && 0 < |names| == |privs| < 0x1_0000_0000
    requires step < 0x1_0000_0000 && offset < 0x1_0000_0000_0000_0000
    ensures
      var h' := Hop(names, privs, h.failures, h.failuresSz, offset, step, Hopping);
      (forall results :: AllTuned(results) ==> Undisturbed(h', Run(h', results))) <==>
        (h.failures == []
         || if step == 0 then offset % |names| != 0 else !Divides(Gcd(|names|, Gcd(step, 0x1_0000_0000_0000_0000)), offset))
  {
    hide Returns, Undisturbed, AllTuned, Gcd, Run;
    LeftoversHarmlessIff(Hop(names, privs, h.failures, h.failuresSz, offset, step, Hopping));
    if step == 0 {
      ReturnsByStandingStill(offset, |names|);
    } else {
      ReturnsIff(offset, step, |names|);
    }
  }

  lemma CopiedPair(a: int, b: int, f: nat)
    requires f != 1
    ensures Copied([a, b], [f]) == if f == 0 then [b] else [a]
  {
    hide Keep;
    var list := [a, b];
    KeepNone(list, [f]);
    KeepNext(list, 0, [f]);
    KeepNext(list, 1, [f]);
    assert list[..2] == list;
  }

  /** A failure of the first channel of an old list drops the first channel of the new one, which tunes. */
  lemma LeftoverInRange()
    ensures
      var h := Hop([20, 21], [0, 1], [0], 1, 1, 1, Hopping);
      Inv(h) && Turn(h, 1).names == [21] && Turn(h, 1).status == Hopping
  {
    hide Copied;
    CopiedPair(20, 21, 0);
    CopiedPair(0, 1, 0);
  }

  /** One beyond the new list makes the copy stop early, and drops the last channel instead. */
  lemma LeftoverBeyond()
    ensures
      var h := Hop([20, 21], [0, 1], [7], 1, 1, 1, Hopping);
      Parallel(h) && !Inv(h) && Turn(h, 1).names == [20] && Turn(h, 1).status == Hopping
  {
    hide Copied;
    CopiedPair(20, 21, 7);
    CopiedPair(0, 1, 7);
    assert [7][0] == 7;
  }

  /** More of them than the new list has channels stop the thread with the internal error. */
  lemma LeftoversTooMany()
    ensures
      var h := Hop([20], [0], [2, 1], 2, 0, 1, Hopping);
      Parallel(h) && Turn(h, 1).status == TooManyErrors && Turn(h, 1).names == [20]
  {
  }
}
