/** The channel list that hopping in kismet/capture_framework.c settles on, when a channel's tuning always
    succeeds or always fails. */
module HopSettling {
  import opened Cycles
  import opened HopScheduler
  import HopRuns

  // ----- what one full pass leaves behind -----

  /** k turns under a callback whose result depends only on the channel. */
  function Pass<C, P>(h: Hop<C, P>, env: P -> int, k: nat): (h': Hop<C, P>)
    requires Parallel(h)
    ensures Parallel(h')
  {
    if k == 0 then h
    else
      var before := Pass(h, env, k - 1);
      Turn(before, env(before.privs[Tuned(before)]))
  }

  lemma {:induction false} PassKeepsInv<C, P>(h: Hop<C, P>, env: P -> int, k: nat)
    requires Inv(h) && h.status != TooManyErrors
    ensures Inv(Pass(h, env, k)) && Pass(h, env, k).status != TooManyErrors
  {
    hide Turn;
    if k != 0 {
      PassKeepsInv(h, env, k - 1);
      var before := Pass(h, env, k - 1);
      TurnKeepsInv(before, env(before.privs[Tuned(before)]));
    }
  }

  lemma {:induction false} PassAdd<C, P>(h: Hop<C, P>, env: P -> int, j: nat, k: nat)
    requires Parallel(h)
    ensures Pass(h, env, j + k) == Pass(Pass(h, env, j), env, k)
  {
    hide Turn;
    if k != 0 {
      PassAdd(h, env, j, k - 1);
    }
  }

  /** From here with nothing recorded, the thread is back at position 0 after `length` turns and not before. */
  ghost predicate Segment<C, P>(h: Hop<C, P>, env: P -> int, length: nat) {
    && Inv(h) && h.status == Hopping && h.failures == []
    && length > 0 && h.hoppos + length * h.step < TWO_64
    && Position(h.hoppos, h.step, |h.names|, length) == 0
    && (forall k: nat :: 0 < k < length ==> Position(h.hoppos, h.step, |h.names|, k) != 0)
    && (forall p :: p in h.privs ==> env(p) >= 0)
  }

  /** Channel p fails to tune and was visited in the first k turns. */
  ghost predicate FailedBy<C, P>(h: Hop<C, P>, env: P -> int, k: nat, p: nat)
    requires |h.names| == |h.privs| > 0 && p < |h.names|
  {
    env(h.privs[p]) == 0 && exists i: nat :: i < k && Position(h.hoppos, h.step, |h.names|, i) == p
  }

  /** Before the pass is over, only the failures and the position move. */
  ghost predicate MidPass<C, P>(h: Hop<C, P>, env: P -> int, k: nat, h': Hop<C, P>)
    requires |h.names| == |h.privs| > 0
  {
    && h'.names == h.names && h'.privs == h.privs && h'.status == Hopping && h'.step == h.step
    && h'.hoppos == h.hoppos + k * h.step
    && forall p: nat :: p < |h.names| ==> (p in h'.failures <==> FailedBy(h, env, k, p))
  }

  lemma SegmentPosition<C, P>(h: Hop<C, P>, env: P -> int, length: nat, k: nat)
    requires Segment(h, env, length) && k <= length
    ensures Position(h.hoppos, h.step, |h.names|, k) == (h.hoppos + k * h.step) % |h.names|
    ensures h.hoppos + k * h.step < TWO_64
  {
    HopRuns.StepsBelow(k, length, h.step);
  }

  lemma FailedByNext<C, P>(h: Hop<C, P>, env: P -> int, k: nat, p: nat)
    requires |h.names| == |h.privs| > 0 && p < |h.names|
    ensures FailedBy(h, env, k + 1, p)
       <==> FailedBy(h, env, k, p) || (env(h.privs[p]) == 0 && Position(h.hoppos, h.step, |h.names|, k) == p)
  {
    hide Position;
    if FailedBy(h, env, k + 1, p) {
      var i: nat :| i < k + 1 && Position(h.hoppos, h.step, |h.names|, i) == p;
    }
  }

  /** After the tuning of turn k, the recorded failures are those of the first k + 1 visits. */
  lemma RecordedMidPass<C, P>(h: Hop<C, P>, env: P -> int, length: nat, k: nat, h': Hop<C, P>)
    requires Segment(h, env, length) && k < length && MidPass(h, env, k, h')
    ensures Tuned(h') < |h'.privs|
    ensures forall p: nat :: p < |h.names| ==>
      (p in Recorded(h', env(h'.privs[Tuned(h')])).failures <==> FailedBy(h, env, k + 1, p))
  {
    hide Position, FailedBy;
    SegmentPosition(h, env, length, k);
    forall p: nat | p < |h.names|
      ensures p in Recorded(h', env(h'.privs[Tuned(h')])).failures <==> FailedBy(h, env, k + 1, p)
    {
      FailedByNext(h, env, k, p);
    }
  }

  /** Turn k, up to the point where it looks at its position: what Pruned is then applied to. */
  lemma SegmentTurn<C, P>(h: Hop<C, P>, env: P -> int, length: nat, k: nat, h': Hop<C, P>) returns (h'': Hop<C, P>)
    requires Segment(h, env, length) && k < length && Inv(h') && MidPass(h, env, k, h')
    ensures Inv(h'') && MidPass(h, env, k + 1, h'')
    ensures Tuned(h') < |h'.privs| && Turn(h', env(h'.privs[Tuned(h')])) == Pruned(h'')
    ensures h''.hoppos % |h''.names| == Position(h.hoppos, h.step, |h.names|, k + 1)
  {
    hide Position, FailedBy, Keep, Copied, Pruned;
    RecordedMidPass(h, env, length, k, h');
    SegmentPosition(h, env, length, k + 1);
    Distribute(k, 1, h.step);
    var r := env(h'.privs[Tuned(h')]);
    assert h'.privs[Tuned(h')] in h.privs;
    RecordedKeepsInv(h', r);
    var next := h.hoppos + (k + 1) * h.step;
    ModIs(next, TWO_64, 0, next);
    h'' := Recorded(h', r).(hoppos := next);
  }

  lemma {:induction false} PassIsMid<C, P>(h: Hop<C, P>, env: P -> int, length: nat, k: nat)
    requires Segment(h, env, length) && k < length
    ensures MidPass(h, env, k, Pass(h, env, k))
  {
    hide Turn, Position, MidPass, Copied;
    if k == 0 {
      MidPassStart(h, env);
    } else {
      PassIsMid(h, env, length, k - 1);
      PassKeepsInv(h, env, k - 1);
      var h'' := SegmentTurn(h, env, length, k - 1, Pass(h, env, k - 1));
    }
  }

  lemma MidPassStart<C, P>(h: Hop<C, P>, env: P -> int)
    requires Inv(h) && h.status == Hopping && h.failures == []
    ensures MidPass(h, env, 0, h)
  {
  }

  /** At the end of a segment what is pruned is the list it started with, every failure on the way recorded. */
  lemma SegmentEnds<C, P>(h: Hop<C, P>, env: P -> int, length: nat) returns (last: Hop<C, P>)
    requires Segment(h, env, length)
    ensures Inv(last) && MidPass(h, env, length, last) && last.hoppos % |last.names| == 0
    ensures Pass(h, env, length) == Pruned(last)
  {
    hide Turn, Position, MidPass, Pruned;
    PassIsMid(h, env, length, length - 1);
    PassKeepsInv(h, env, length - 1);
    last := SegmentTurn(h, env, length, length - 1, Pass(h, env, length - 1));
  }

  lemma {:induction false} KeepIsGood<T, P>(list: seq<T>, privs: seq<P>, failures: seq<nat>, good: P -> bool)
    requires |list| == |privs|
    requires forall i: nat :: i < |privs| ==> (i in failures <==> !good(privs[i]))
    ensures Keep(list, failures) == Good(list, privs, good)
    decreases |list|
  {
    if list != [] {
      var n := |list| - 1;
      KeepIsGood(list[..n], privs[..n], failures, good);
    }
  }

  lemma {:induction false} KeepWithoutFailures<T>(list: seq<T>)
    ensures Keep(list, []) == list
    decreases |list|
  {
    if list != [] {
      KeepWithoutFailures(list[..|list| - 1]);
    }
  }

  /** A thread that starts at position 0 with nothing recorded, and a step that covers the list. */
  ghost predicate FreshPass<C, P>(h: Hop<C, P>, env: P -> int) {
    && Inv(h) && h.status == Hopping && h.failures == []
    && h.hoppos % |h.names| == 0 && Gcd(h.step, |h.names|) == 1
    && h.hoppos + |h.names| * h.step < TWO_64
    && (forall p :: p in h.privs ==> env(p) >= 0)
  }

  /** Its first segment is the whole list. */
  lemma FullPassIsSegment<C, P>(h: Hop<C, P>, env: P -> int)
    requires FreshPass(h, env)
    ensures Segment(h, env, |h.names|)
  {
    hide Gcd, Position, Period;
    var n := |h.names|;
    var q, r := DivMod(h.hoppos, n);
    ModIs(h.hoppos, n, q, r);
    PeriodIsAll(h.step, n);
    PositionIs(h.hoppos, h.step, n, 0, q, 0);
    forall k: nat | 0 < k < n
      ensures Position(h.hoppos, h.step, n, k) != 0
    {
      VisitedOnce(h.hoppos, h.step, n, 0, k);
    }
    Distribute(q, h.step, n);
    PositionIs(h.hoppos, h.step, n, n, q + h.step, 0);
  }

  /** By the end of the pass everything was visited, so exactly the channels that fail are recorded. */
  lemma AllVisited<C, P>(h: Hop<C, P>, env: P -> int, p: nat)
    requires FreshPass(h, env) && p < |h.names|
    ensures FailedBy(h, env, |h.names|, p) <==> env(h.privs[p]) == 0
  {
    hide Position, Gcd, Period;
    var n := |h.names|;
    PeriodIsAll(h.step, n);
    assert p - h.hoppos == (p - h.hoppos) * 1;
    var k := ClassVisited(h.hoppos, h.step, n, p);
  }

  /** Pruning when exactly the channels that are not good are recorded. */
  lemma PruneToGood<C, P>(h: Hop<C, P>, good: P -> bool)
    requires Inv(h) && h.status == Hopping && h.hoppos % |h.names| == 0
    requires forall p: nat :: p < |h.names| ==> (p in h.failures <==> !good(h.privs[p]))
    ensures if Good(h.privs, h.privs, good) == [] then
        Pruned(h).status == AllFailed
      else
        Pruned(h).status == Hopping && Pruned(h).failures == [] &&
        Pruned(h).names == Good(h.names, h.privs, good) && Pruned(h).privs == Good(h.privs, h.privs, good)
  {
    hide Keep, Good;
    KeepIsGood(h.names, h.privs, h.failures, good);
    KeepIsGood(h.privs, h.privs, h.failures, good);
    CopiedIsKeep(h.names, h.failures);
    CopiedIsKeep(h.privs, h.failures);
    KeepWithoutFailures(h.names);
    KeepWithoutFailures(h.privs);
  }

  /** Exactly the channels that can be tuned are left, names and records parallel and in order, and nothing is
      recorded; or there is none, and the thread has stopped. */
  ghost predicate Settled<C, P>(h: Hop<C, P>, good: P -> bool, h': Hop<C, P>)
    requires Parallel(h)
  {
    if Good(h.privs, h.privs, good) == [] then
      h'.status == AllFailed
    else
      h'.status == Hopping && h'.failures == [] &&
      h'.names == Good(h.names, h.privs, good) && h'.privs == Good(h.privs, h.privs, good)
  }

  lemma SettledBy<C, P>(h: Hop<C, P>, env: P -> int, good: P -> bool)
    requires FreshPass(h, env) && forall p: nat :: p < |h.privs| ==> (good(h.privs[p]) <==> env(h.privs[p]) != 0)
    ensures Settled(h, good, Pass(h, env, |h.names|))
  {
    hide Turn, Pruned, Gcd, Good, Position, FailedBy;
    FullPassIsSegment(h, env);
    var last := SegmentEnds(h, env, |h.names|);
    forall p: nat | p < |h.names|
      ensures p in last.failures <==> !good(h.privs[p])
    {
      AllVisited(h, env, p);
    }
    PruneToGood(last, good);
  }

  /** One full pass with a covering step, from position 0, settles the list. */
  lemma OnePassSettles<C, P>(h: Hop<C, P>, env: P -> int)
    requires FreshPass(h, env)
    ensures Settled(h, (p: P) => env(p) != 0, Pass(h, env, |h.names|))
  {
    hide FreshPass, Pass, Settled;
    SettledBy(h, env, (p: P) => env(p) != 0);
  }

  // ----- without shuffling -----

  /** env does not fail the thread, and good says for which records it tunes. */
  ghost predicate Decides<P>(env: P -> int, good: P -> bool, privs: seq<P>) {
    forall p :: p in privs ==> env(p) >= 0 && (good(p) <==> env(p) != 0)
  }

  lemma {:induction false} GoodAreGood<P>(privs: seq<P>, good: P -> bool)
    ensures forall p :: p in Good(privs, privs, good) ==> good(p) && p in privs
  {
    if privs != [] {
      GoodAreGood(privs[..|privs| - 1], good);
    }
  }

  /** Once every channel tunes, nothing changes. */
  lemma {:induction false} AllGoodStays<C, P>(h: Hop<C, P>, env: P -> int, k: nat)
    requires Parallel(h) && h.status == Hopping && h.failures == [] && forall p :: p in h.privs ==> env(p) > 0
    ensures HopRuns.Undisturbed(h, Pass(h, env, k)) && Pass(h, env, k).failures == []
  {
    hide Turn;
    if k != 0 {
      AllGoodStays(h, env, k - 1);
      var before := Pass(h, env, k - 1);
      assert before.privs[Tuned(before)] in h.privs;
      HopRuns.TunedTurn(before, env(before.privs[Tuned(before)]));
    }
  }

  lemma {:induction false} StoppedStays<C, P>(h: Hop<C, P>, env: P -> int, k: nat)
    requires Parallel(h) && h.status != Hopping
    ensures Pass(h, env, k) == h
  {
    if k != 0 {
      StoppedStays(h, env, k - 1);
    }
  }

  lemma SettledStays<C, P>(h: Hop<C, P>, env: P -> int, good: P -> bool, h': Hop<C, P>, k: nat)
    requires Parallel(h) && Parallel(h') && Decides(env, good, h.privs) && Settled(h, good, h')
    ensures Settled(h, good, Pass(h', env, k))
  {
    hide Pass, Good, Turn;
    GoodAreGood(h.privs, good);
    if h'.status == Hopping {
      AllGoodStays(h', env, k);
    } else {
      StoppedStays(h', env, k);
    }
  }

  /** Stepping by one, the rest of the list is a segment. */
  lemma RestIsSegment<C, P>(h: Hop<C, P>, env: P -> int)
    requires Inv(h) && h.status == Hopping && h.failures == [] && h.step == 1
    requires h.hoppos + |h.names| < TWO_64 && forall p :: p in h.privs ==> env(p) >= 0
    ensures Segment(h, env, |h.names| - Tuned(h))
  {
    hide Position;
    var n := |h.names|;
    var q, r := DivMod(h.hoppos, n);
    ModIs(h.hoppos, n, q, r);
    forall k: nat | 0 < k < n - r
      ensures Position(h.hoppos, 1, n, k) != 0
    {
      PositionIs(h.hoppos, 1, n, k, q, r + k);
    }
    Distribute(q, 1, n);
    PositionIs(h.hoppos, 1, n, n - r, q + 1, 0);
  }

  /** Pruning channels that do not tune leaves those that do. */
  lemma PrunedKeepsGood<C, P>(h: Hop<C, P>, env: P -> int, k: nat, last: Hop<C, P>, good: P -> bool)
    requires Inv(h) && Inv(last) && MidPass(h, env, k, last) && Decides(env, good, h.privs)
    requires last.hoppos % |last.names| == 0 && 0 < |last.failures| < |last.names|
    ensures var h' := Pruned(last);
      && Inv(h') && h'.status == Hopping && h'.failures == [] && h'.step == h.step && h'.hoppos == last.hoppos
      && |h'.names| < |h.names| && Decides(env, good, h'.privs)
      && Good(h'.names, h'.privs, good) == Good(h.names, h.privs, good)
      && Good(h'.privs, h'.privs, good) == Good(h.privs, h.privs, good)
  {
    hide Keep, Good, Position;
    CopiedIsKeep(last.names, last.failures);
    CopiedIsKeep(last.privs, last.failures);
    hide Copied;
    forall i: nat | i < |h.privs| && i in last.failures
      ensures !good(h.privs[i])
    {
      assert h.privs[i] in h.privs;
    }
    KeepKeepsGood(h.names, h.privs, last.failures, good);
    KeepKeepsGood(h.privs, h.privs, last.failures, good);
    KeepIsPart(h.privs, last.failures);
  }

  lemma {:induction false} KeepIsPart<T>(list: seq<T>, failures: seq<nat>)
    ensures forall x :: x in Keep(list, failures) ==> x in list
  {
    if list != [] {
      KeepIsPart(list[..|list| - 1], failures);
    }
  }

  /** When the failures are all the channels, none tunes. */
  lemma AllFailedMeansNone<C, P>(h: Hop<C, P>, env: P -> int, k: nat, last: Hop<C, P>, good: P -> bool)
    requires Inv(h) && Inv(last) && MidPass(h, env, k, last) && Decides(env, good, h.privs)
    requires |last.failures| == |last.names|
    ensures Good(h.privs, h.privs, good) == []
  {
    hide Keep, Good, Position;
    KeepLength(h.privs, last.failures);
    KeepSelects(h.privs, last.failures);
    SurvivorsAscend(|h.privs|, last.failures);
    assert Survivors(|h.privs|, last.failures) == [];
    forall i: nat | i < |h.privs|
      ensures i in last.failures <==> !good(h.privs[i])
    {
      assert h.privs[i] in h.privs && i !in Survivors(|h.privs|, last.failures);
    }
    KeepIsGood(h.privs, h.privs, last.failures, good);
  }

  lemma DecidesNonnegative<P>(env: P -> int, good: P -> bool, privs: seq<P>)
    requires Decides(env, good, privs)
    ensures forall p :: p in privs ==> env(p) >= 0
  {
  }

  lemma PrunedCases<C, P>(h: Hop<C, P>, env: P -> int, k: nat, last: Hop<C, P>)
    requires Inv(h) && Inv(last) && MidPass(h, env, k, last) && last.hoppos % |last.names| == 0
    ensures |last.failures| <= |last.names| == |h.names| && last.hoppos == h.hoppos + k * h.step
    ensures last.failures == [] ==> Pruned(last) == last
    ensures |last.failures| == |last.names| ==> Pruned(last) == last.(status := AllFailed)
  {
    hide Position, Keep;
    KeepLength(last.names, last.failures);
  }

  /** From position 0, with nothing recorded, one full pass settles the list. */
  lemma StartOver<C, P>(h: Hop<C, P>, env: P -> int, k: nat, last: Hop<C, P>, good: P -> bool)
    requires Inv(h) && Inv(last) && MidPass(h, env, k, last) && Decides(env, good, h.privs)
    requires last.hoppos % |last.names| == 0 && last.failures == [] && h.step == 1
    requires last.hoppos + |last.names| < TWO_64
    ensures Settled(h, good, Pass(last, env, |last.names|))
  {
    hide Pass, Good, Position, Gcd;
    GcdOfOne(|last.names|);
    forall p: nat | p < |last.privs|
      ensures good(last.privs[p]) <==> env(last.privs[p]) != 0
    {
      assert last.privs[p] in h.privs;
    }
    SettledBy(last, env, good);
  }

  lemma GcdOfOne(n: nat)
    requires n > 0
    ensures Gcd(1, n) == 1
  {
    hide Gcd;
    var p, q := GcdDivides(1, n);
  }

  lemma SmallerBound(m: nat, n: nat)
    requires m < n
    ensures m * (m + 1) <= n * n
  {
    HopRuns.StepsBelow(m + 1, n, m);
    HopRuns.StepsBelow(m, n, n);
  }

  /** Without shuffling the list settles from any offset: each return to position 0 prunes something, or starts
      a full pass, after which it is settled. */
  lemma {:induction false} StepOneSettles<C, P>(h: Hop<C, P>, env: P -> int, good: P -> bool, turns: nat)
    requires Inv(h) && h.status == Hopping && h.failures == [] && h.step == 1 && Decides(env, good, h.privs)
    requires turns >= |h.names| * (|h.names| + 1) && h.hoppos + turns < TWO_64
    ensures Settled(h, good, Pass(h, env, turns))
    decreases |h.names|
  {
    hide Pass, Good, Position, MidPass, Pruned, Decides, Segment;
    var n := |h.names|;
    Distribute(n, 1, n);
    MulGrows(n, n);
    DecidesNonnegative(env, good, h.privs);
    RestIsSegment(h, env);
    var length := n - Tuned(h);
    var last := SegmentEnds(h, env, length);
    PassAdd(h, env, length, turns - length);
    PassKeepsInv(h, env, length);
    PrunedCases(h, env, length, last);
    if last.failures == [] {
      StartOver(h, env, length, last, good);
      PassAdd(last, env, n, turns - length - n);
      SettledStays(h, env, good, Pass(last, env, n), turns - length - n);
    } else if |last.failures| == n {
      AllFailedMeansNone(h, env, length, last, good);
      StoppedStays(Pruned(last), env, turns - length);
    } else {
      PrunedKeepsGood(h, env, length, last, good);
      SmallerBound(|Pruned(last).names|, n);
      StepOneSettles(Pruned(last), env, good, turns - length);
    }
  }
}
