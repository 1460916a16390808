/** Channel hopping in kismet/capture_framework.c: one turn of the hopping thread, what whole runs of turns
    keep, and the methods that run it. */
module HopScheduler {
  import opened Cycles
  import opened HopSpacing

  const TWO_31: int := 0x8000_0000
  const TWO_32: nat := 0x1_0000_0000
  const TWO_64: nat := 0x1_0000_0000_0000_0000

  /** A signed int converted to an unsigned type of so many values. */
  function Unsigned(x: int, values: nat): nat
    requires 0 <= x + values
  {
    if x < 0 then x + values else x
  }

  // ----- the state of the hopping thread -----

  datatype Status = Hopping | CallbackFailed | AllFailed | TooManyErrors

  /** The fields one turn reads and writes; `failures` is the linked list, newest first. */
  datatype Hop<C, P> = Hop(
    names: seq<C>, privs: seq<P>, failures: seq<nat>, failuresSz: nat, hoppos: nat, step: nat, status: Status)

  /** What the code relies on: parallel lists that are not empty, and a counter for the failure list. */
  predicate Parallel<C, P>(h: Hop<C, P>) {
    |h.names| == |h.privs| > 0 && h.failuresSz == |h.failures|
  }

  /** What every turn keeps once failures are distinct positions of the list, as they are when none is recorded. */
  ghost predicate Inv<C, P>(h: Hop<C, P>) {
    && Parallel(h)
    && (forall i :: 0 <= i < |h.failures| ==> h.failures[i] < |h.names|)
    && (forall i, j :: 0 <= i < j < |h.failures| ==> h.failures[i] != h.failures[j])
  }

  /** The entries whose position is not recorded as failed, in order. */
  function Keep<T>(list: seq<T>, failures: seq<nat>): seq<T> {
    if list == [] then []
    else
      var n := |list| - 1;
      Keep(list[..n], failures) + if n in failures then [] else [list[n]]
  }

  /** The position tuned in this turn. */
  function Tuned<C, P>(h: Hop<C, P>): nat
    requires |h.names| > 0
  {
    h.hoppos % |h.names|
  }

  /** The failure list after the callback returned r. */
  function Recorded<C, P>(h: Hop<C, P>, r: int): Hop<C, P>
    requires |h.names| > 0
  {
    if r == 0 && Tuned(h) !in h.failures then
      h.(failures := [Tuned(h)] + h.failures, failuresSz := h.failuresSz + 1)
    else h
  }

  /** The new list: what is kept, cut where the copy loop stops because the list it fills is full. */
  function Copied<T>(list: seq<T>, failures: seq<nat>): (c: seq<T>)
    requires |failures| <= |list|
    ensures |c| == |list| - |failures|
  {
    KeepEnough(list, failures);
    Keep(list, failures)[..|list| - |failures|]
  }

  /** Back at position 0 with failures recorded: drop the failed channels. */
  function Pruned<C, P>(h: Hop<C, P>): (h': Hop<C, P>)
    requires Parallel(h)
    ensures Parallel(h')
  {
    if h.hoppos % |h.names| != 0 || h.failuresSz == 0 then h
    else if h.failuresSz == |h.names| then h.(status := AllFailed)
    else if h.failuresSz > |h.names| then h.(status := TooManyErrors)
    else h.(names := Copied(h.names, h.failures), privs := Copied(h.privs, h.failures), failures := [], failuresSz := 0)
  }

  /** One turn of `cf_int_chanhop_thread`; r is what the tuning callback returned. */
  function Turn<C, P>(h: Hop<C, P>, r: int): (h': Hop<C, P>)
    requires Parallel(h)
    ensures Parallel(h')
  {
    if h.status != Hopping then h
    else if r < 0 then h.(status := CallbackFailed)
    else
      var recorded := Recorded(h, r);
      Pruned(recorded.(hoppos := (recorded.hoppos + recorded.step) % TWO_64))
  }

  // ----- counting -----

  /** The recorded positions below n, as a set. */
  function FailedBelow(failures: seq<nat>, n: nat): set<nat> {
    set f | f in failures && f < n
  }

  lemma {:induction false} KeepCounts<T>(list: seq<T>, failures: seq<nat>)
    ensures |Keep(list, failures)| + |FailedBelow(failures, |list|)| == |list|
  {
    if list == [] {
      assert FailedBelow(failures, 0) == {};
    } else {
      var n := |list| - 1;
      KeepCounts(list[..n], failures);
      if n in failures {
        assert FailedBelow(failures, n + 1) == FailedBelow(failures, n) + {n};
      } else {
        assert FailedBelow(failures, n + 1) == FailedBelow(failures, n);
      }
    }
  }

  lemma {:induction false} DistinctCount(failures: seq<nat>, n: nat)
    requires forall i :: 0 <= i < |failures| ==> failures[i] < n
    requires forall i, j :: 0 <= i < j < |failures| ==> failures[i] != failures[j]
    ensures |FailedBelow(failures, n)| == |failures|
  {
    if failures == [] {
      assert FailedBelow(failures, n) == {};
    } else {
      var rest := failures[1..];
      DistinctCount(rest, n);
      assert failures == [failures[0]] + rest;
      assert FailedBelow(failures, n) == FailedBelow(rest, n) + {failures[0]};
      assert failures[0] !in rest;
    }
  }

  lemma {:induction false} FailedBelowSmall(failures: seq<nat>, n: nat)
    ensures |FailedBelow(failures, n)| <= |failures|
  {
    if failures == [] {
      assert FailedBelow(failures, n) == {};
    } else {
      var rest := failures[1..];
      FailedBelowSmall(rest, n);
      assert failures == [failures[0]] + rest;
      assert FailedBelow(failures, n) <= FailedBelow(rest, n) + {failures[0]};
      SubsetSmaller(FailedBelow(failures, n), FailedBelow(rest, n) + {failures[0]});
    }
  }

  lemma {:induction false} SubsetSmaller(a: set<nat>, b: set<nat>)
    requires a <= b
    ensures |a| <= |b|
  {
    assert b == a + (b - a);
  }

  /** Whatever the failure list holds, enough channels are kept to fill the new lists. */
  lemma KeepEnough<T>(list: seq<T>, failures: seq<nat>)
    ensures |Keep(list, failures)| >= |list| - |failures|
  {
    hide Keep;
    KeepCounts(list, failures);
    FailedBelowSmall(failures, |list|);
  }

  /** Distinct positions in range never outnumber the channels, and pruning keeps exactly the others. */
  lemma KeepLength<T>(list: seq<T>, failures: seq<nat>)
    requires forall i :: 0 <= i < |failures| ==> failures[i] < |list|
    requires forall i, j :: 0 <= i < j < |failures| ==> failures[i] != failures[j]
    ensures |failures| <= |list| && |Keep(list, failures)| == |list| - |failures|
  {
    hide Keep;
    KeepCounts(list, failures);
    DistinctCount(failures, |list|);
  }

  /** Then nothing is cut. */
  lemma CopiedIsKeep<T>(list: seq<T>, failures: seq<nat>)
    requires forall i :: 0 <= i < |failures| ==> failures[i] < |list|
    requires forall i, j :: 0 <= i < j < |failures| ==> failures[i] != failures[j]
    ensures |failures| <= |list| && Copied(list, failures) == Keep(list, failures)
  {
    hide Keep;
    KeepLength(list, failures);
  }

  // ----- one turn -----

  lemma RecordedKeepsInv<C, P>(h: Hop<C, P>, r: int)
    requires Inv(h)
    ensures Inv(Recorded(h, r))
  {
  }

  /** Failures stay distinct and in range, the internal-error branch is never taken, and the lists either
      stay as they are or lose exactly the recorded failures, at position 0, and are not emptied. */
  lemma TurnKeepsInv<C, P>(h: Hop<C, P>, r: int)
    requires Inv(h) && h.status != TooManyErrors
    ensures Inv(Turn(h, r)) && Turn(h, r).status != TooManyErrors
    ensures var h', failed := Turn(h, r), |Recorded(h, r).failures|;
      || (h'.names == h.names && h'.privs == h.privs)
      || (h'.failures == [] && h'.hoppos % |h.names| == 0 && failed > 0 && 0 < |h'.names| == |h.names| - failed)
  {
    if h.status == Hopping && r >= 0 {
      RecordedKeepsInv(h, r);
      var recorded := Recorded(h, r);
      CopiedIsKeep(h.names, recorded.failures);
      CopiedIsKeep(h.privs, recorded.failures);
    }
  }

  // ----- whole runs -----

  /** The state after the turns whose callback results are given. */
  function Run<C, P>(h: Hop<C, P>, results: seq<int>): (h': Hop<C, P>)
    requires Parallel(h)
    ensures Parallel(h')
    decreases |results|
  {
    if results == [] then h else Turn(Run(h, results[..|results| - 1]), results[|results| - 1])
  }

  /** From a state that meets the invariant, every run keeps it and never reaches the internal error. */
  lemma {:induction false} RunKeepsInv<C, P>(h: Hop<C, P>, results: seq<int>)
    requires Inv(h) && h.status != TooManyErrors
    ensures Inv(Run(h, results)) && Run(h, results).status != TooManyErrors
    decreases |results|
  {
    hide Turn;
    if results != [] {
      RunKeepsInv(h, results[..|results| - 1]);
      TurnKeepsInv(Run(h, results[..|results| - 1]), results[|results| - 1]);
    }
  }

  /** The thread ends with the first turn whose callback returns a negative value, and changes nothing more. */
  lemma {:induction false} FirstNegativeEnds<C, P>(h: Hop<C, P>, results: seq<int>, k: nat)
    requires Parallel(h) && k < |results| && results[k] < 0 && Run(h, results[..k]).status == Hopping
    ensures Run(h, results) == Run(h, results[..k]).(status := CallbackFailed)
    decreases |results|
  {
    hide Pruned, Recorded;
    var n := |results| - 1;
    if k < n {
      assert results[..n][..k] == results[..k];
      FirstNegativeEnds(h, results[..n], k);
    }
  }

  /** And it ends for a callback in no other case. */
  lemma {:induction false} EndedByCallback<C, P>(h: Hop<C, P>, results: seq<int>) returns (k: nat)
    requires Parallel(h) && h.status == Hopping && Run(h, results).status == CallbackFailed
    ensures k < |results| && results[k] < 0 && Run(h, results[..k]).status == Hopping
    decreases |results|
  {
    var n := |results| - 1;
    if Run(h, results[..n]).status == Hopping {
      k := n;
    } else {
      k := EndedByCallback(h, results[..n]);
      assert results[..n][..k] == results[..k];
    }
  }

  /** The entries at the selected positions. */
  function Pick<T>(list: seq<T>, sel: seq<nat>): (r: seq<T>)
    requires forall i :: 0 <= i < |sel| ==> sel[i] < |list|
    ensures |r| == |sel|
  {
    seq(|sel|, i requires 0 <= i < |sel| => list[sel[i]])
  }

  /** Positions below n, in order and without repetition. */
  ghost predicate Ascending(sel: seq<nat>, n: nat) {
    && (forall i :: 0 <= i < |sel| ==> sel[i] < n)
    && (forall i, j :: 0 <= i < j < |sel| ==> sel[i] < sel[j])
  }

  /** The positions below n that are not recorded as failed. */
  function Survivors(n: nat, failures: seq<nat>): seq<nat> {
    if n == 0 then [] else Survivors(n - 1, failures) + if n - 1 in failures then [] else [n - 1]
  }

  lemma {:induction false} SurvivorsAscend(n: nat, failures: seq<nat>)
    ensures Ascending(Survivors(n, failures), n)
    ensures forall p: nat :: p in Survivors(n, failures) <==> p < n && p !in failures
  {
    if n != 0 {
      SurvivorsAscend(n - 1, failures);
    }
  }

  lemma PickPrefix<T>(list: seq<T>, n: nat, sel: seq<nat>)
    requires n < |list| && forall i :: 0 <= i < |sel| ==> sel[i] < n
    ensures Pick(list[..n], sel) == Pick(list, sel)
    ensures Pick(list, sel + [n]) == Pick(list, sel) + [list[n]]
  {
  }

  /** Pruning selects exactly the positions not recorded, in order, from any list of that length. */
  lemma {:induction false} KeepSelects<T>(list: seq<T>, failures: seq<nat>)
    ensures Ascending(Survivors(|list|, failures), |list|)
    ensures Keep(list, failures) == Pick(list, Survivors(|list|, failures))
    decreases |list|
  {
    hide Pick;
    SurvivorsAscend(|list|, failures);
    if list == [] {
      assert Survivors(0, failures) == [];
      PickNone(list, Survivors(0, failures));
    } else {
      var n := |list| - 1;
      KeepSelects(list[..n], failures);
      var sel := Survivors(n, failures);
      PickPrefix(list, n, sel);
      if n in failures {
        assert Survivors(n + 1, failures) == sel;
        assert Keep(list, failures) == Keep(list[..n], failures);
      } else {
        assert Survivors(n + 1, failures) == sel + [n];
      }
    }
  }

  lemma PickNone<T>(list: seq<T>, sel: seq<nat>)
    requires sel == []
    ensures Pick(list, sel) == []
  {
  }

  lemma PickPick<T>(list: seq<T>, sel: seq<nat>, sub: seq<nat>)
    requires Ascending(sel, |list|) && Ascending(sub, |sel|)
    ensures Ascending(Pick(sel, sub), |list|)
    ensures Pick(Pick(list, sel), sub) == Pick(list, Pick(sel, sub))
  {
  }

  lemma PickAll<T>(list: seq<T>, sel: seq<nat>)
    requires |sel| == |list| && forall i :: 0 <= i < |sel| ==> sel[i] == i
    ensures Pick(list, sel) == list
  {
  }

  lemma RecordedFields<C, P>(h: Hop<C, P>, r: int)
    requires |h.names| > 0
    ensures Parallel(h) ==> Parallel(Recorded(h, r))
    ensures Recorded(h, r) == h.(failures := Recorded(h, r).failures, failuresSz := Recorded(h, r).failuresSz)
  {
  }

  lemma CopiedSelects<T>(list: seq<T>, failures: seq<nat>)
    requires |failures| <= |list|
    ensures Ascending(Survivors(|list|, failures), |list|)
    ensures |Survivors(|list|, failures)| >= |list| - |failures|
    ensures Copied(list, failures) == Pick(list, Survivors(|list|, failures)[..|list| - |failures|])
  {
    hide Keep;
    KeepSelects(list, failures);
    KeepEnough(list, failures);
  }

  lemma TurnSelects<C, P>(h: Hop<C, P>, r: int) returns (sel: seq<nat>)
    requires Parallel(h)
    ensures Ascending(sel, |h.names|)
    ensures Turn(h, r).names == Pick(h.names, sel) && Turn(h, r).privs == Pick(h.privs, sel)
  {
    hide Keep, Copied, Pick;
    var failures := Recorded(h, r).failures;
    if Turn(h, r).names == h.names && Turn(h, r).privs == h.privs {
      sel := seq(|h.names|, i => i);
      PickAll(h.names, sel);
      PickAll(h.privs, sel);
    } else {
      CopiedSelects(h.names, failures);
      CopiedSelects(h.privs, failures);
      sel := Survivors(|h.names|, failures)[..|h.names| - |failures|];
    }
  }

  /** In any run, whatever failures it starts with, the two lists stay parallel: both are the same
      order-preserving selection of the assigned ones. */
  lemma {:induction false} RunSelects<C, P>(h: Hop<C, P>, results: seq<int>) returns (sel: seq<nat>)
    requires Parallel(h)
    ensures Ascending(sel, |h.names|) && |sel| > 0
    ensures Run(h, results).names == Pick(h.names, sel) && Run(h, results).privs == Pick(h.privs, sel)
    decreases |results|
  {
    hide Turn, Pick;
    assert |Run(h, results).names| > 0;
    if results == [] {
      sel := seq(|h.names|, i => i);
      PickAll(h.names, sel);
      PickAll(h.privs, sel);
    } else {
      var n := |results| - 1;
      var before := Run(h, results[..n]);
      var first := RunSelects(h, results[..n]);
      var second := TurnSelects(before, results[n]);
      assert Run(h, results) == Turn(before, results[n]);
      PickPick(h.names, first, second);
      PickPick(h.privs, first, second);
      sel := Pick(first, second);
    }
  }

  // ----- channels that can be tuned stay -----

  /** The entries, of either list, whose private record satisfies `good`. */
  function Good<T, P>(list: seq<T>, privs: seq<P>, good: P -> bool): seq<T>
    requires |list| == |privs|
  {
    if list == [] then []
    else
      var n := |list| - 1;
      Good(list[..n], privs[..n], good) + if good(privs[n]) then [list[n]] else []
  }

  /** Every recorded failure is of a channel that is not good. */
  ghost predicate FailuresBad<C, P>(h: Hop<C, P>, good: P -> bool)
    requires Inv(h)
  {
    forall i :: 0 <= i < |h.failures| ==> !good(h.privs[h.failures[i]])
  }

  lemma GoodNext<T, P>(list: seq<T>, x: T, privs: seq<P>, p: P, good: P -> bool)
    requires |list| == |privs|
    ensures Good(list + [x], privs + [p], good) == Good(list, privs, good) + if good(p) then [x] else []
  {
    assert (list + [x])[..|list|] == list && (privs + [p])[..|privs|] == privs;
  }

  lemma {:induction false} KeepKeepsGood<T, P>(list: seq<T>, privs: seq<P>, failures: seq<nat>, good: P -> bool)
    requires |list| == |privs|
    requires forall i: nat :: i < |privs| && i in failures ==> !good(privs[i])
    ensures |Keep(list, failures)| == |Keep(privs, failures)|
    ensures Good(Keep(list, failures), Keep(privs, failures), good) == Good(list, privs, good)
    decreases |list|
  {
    if list != [] {
      var n := |list| - 1;
      KeepKeepsGood(list[..n], privs[..n], failures, good);
      var l, p := Keep(list[..n], failures), Keep(privs[..n], failures);
      if n in failures {
        assert Keep(list, failures) == l && Keep(privs, failures) == p;
      } else {
        GoodNext(l, list[n], p, privs[n], good);
      }
    }
  }

  lemma TurnKeepsGood<C, P>(h: Hop<C, P>, r: int, good: P -> bool)
    requires Inv(h) && h.status != TooManyErrors && FailuresBad(h, good)
    requires r == 0 ==> !good(h.privs[Tuned(h)])
    ensures Inv(Turn(h, r)) && FailuresBad(Turn(h, r), good)
    ensures Good(Turn(h, r).privs, Turn(h, r).privs, good) == Good(h.privs, h.privs, good)
    ensures Good(Turn(h, r).names, Turn(h, r).privs, good) == Good(h.names, h.privs, good)
  {
    hide Keep, Good;
    TurnKeepsInv(h, r);
    var recorded := Recorded(h, r);
    RecordedKeepsInv(h, r);
    CopiedIsKeep(h.names, recorded.failures);
    CopiedIsKeep(h.privs, recorded.failures);
    hide Copied;
    assert FailuresBad(recorded, good);
    forall i: nat | i < |h.privs| && i in recorded.failures
      ensures !good(h.privs[i])
    {
      var k :| 0 <= k < |recorded.failures| && recorded.failures[k] == i;
    }
    KeepKeepsGood(h.names, h.privs, recorded.failures, good);
    KeepKeepsGood(h.privs, h.privs, recorded.failures, good);
  }

  /** In every turn of the run, a tuning that fails is of a channel that is not good. */
  ghost predicate Honest<C, P>(h: Hop<C, P>, results: seq<int>, good: P -> bool)
    requires Parallel(h)
  {
    forall k :: 0 <= k < |results| ==>
      var at := Run(h, results[..k]);
      results[k] == 0 ==> !good(at.privs[Tuned(at)])
  }

  /** Over any run, no channel is lost that never failed to tune: the good ones stay, in order. */
  lemma {:induction false} RunKeepsGood<C, P>(h: Hop<C, P>, results: seq<int>, good: P -> bool)
    requires Inv(h) && h.status != TooManyErrors && FailuresBad(h, good)
    requires Honest(h, results, good)
    ensures Inv(Run(h, results)) && FailuresBad(Run(h, results), good)
    ensures Good(Run(h, results).privs, Run(h, results).privs, good) == Good(h.privs, h.privs, good)
    ensures Good(Run(h, results).names, Run(h, results).privs, good) == Good(h.names, h.privs, good)
    decreases |results|
  {
    hide Turn, Good, FailuresBad;
    if results != [] {
      var n := |results| - 1;
      var before := Run(h, results[..n]);
      assert Honest(h, results[..n], good) by {
        forall k | 0 <= k < n
          ensures results[..n][..k] == results[..k]
        {
        }
      }
      RunKeepsGood(h, results[..n], good);
      RunKeepsInv(h, results[..n]);
      TurnKeepsGood(before, results[n], good);
    }
  }

  // ----- the handler -----

  /** The hopping fields of `kis_capture_handler` and the position its thread keeps. */
  class CaptureHandler<C, P> {
    var channelHopList: seq<C>
    var customChannelHopList: seq<P>
    var channelHopFailureList: seq<nat>
    var channelHopFailureListSz: nat
    var channelHopShuffle: bool
    var channelHopShuffleSpacing: nat
    var channelHopOffset: int
    var hoppos: nat
    var status: Status

    constructor ()
      ensures State() == Hop([], [], [], 0, 0, 1, Hopping)
    {
      channelHopList, customChannelHopList := [], [];
      channelHopFailureList, channelHopFailureListSz := [], 0;
      channelHopShuffle, channelHopShuffleSpacing, channelHopOffset := false, 0, 0;
      hoppos := 0;
      status := Hopping;
    }

    /** The increment of a turn. */
    function HopStep(): nat
      reads this
    {
      if channelHopShuffle then channelHopShuffleSpacing else 1
    }

    ghost function State(): Hop<C, P>
      reads this
    {
      Hop(channelHopList, customChannelHopList, channelHopFailureList, channelHopFailureListSz, hoppos, HopStep(), status)
    }

    /** `cf_handler_assign_hop_channels` and the start of the thread it launches. The recorded failures
        are left as they are. A negative spacing or offset becomes a large unsigned number. */
    method AssignHopChannels(stringchans: seq<C>, privchans: seq<P>, shuffle: bool, shuffleSpacing: int, offset: int)
      requires |stringchans| == |privchans| < TWO_31
      requires -TWO_31 <= shuffleSpacing < TWO_31 && -TWO_31 <= offset < TWO_31
      modifies this
      ensures
        var spacing := AssignedSpacing(|stringchans|, shuffle, Unsigned(shuffleSpacing, TWO_32));
        && State() == Hop(stringchans, privchans, old(channelHopFailureList), old(channelHopFailureListSz),
             Unsigned(offset, TWO_64), if shuffle then spacing else 1, Hopping)
        && channelHopShuffleSpacing == spacing
      ensures
        var requested := if shuffleSpacing < 0 then shuffleSpacing + 4294967296 else shuffleSpacing;
        if shuffle && requested != 0 && stringchans != [] then Chosen(|stringchans|, requested, channelHopShuffleSpacing)
        else channelHopShuffleSpacing == requested
      ensures hoppos == if offset < 0 then offset + 18446744073709551616 else offset
    {
      var chanSz := |stringchans|;
      hide Settle, Chosen;
      if shuffle && shuffleSpacing != 0 && chanSz != 0 {
        AssignedIsChosen(chanSz, Unsigned(shuffleSpacing, TWO_32));
      }
      channelHopList, customChannelHopList := stringchans, privchans;
      channelHopShuffle, channelHopOffset := shuffle, offset;
      channelHopShuffleSpacing := Unsigned(shuffleSpacing, TWO_32);
      if channelHopShuffle && channelHopShuffleSpacing != 0 && chanSz != 0 {
        if channelHopShuffleSpacing > chanSz {
          channelHopShuffleSpacing := 1;
        }
        channelHopShuffleSpacing := SettleSpacing(chanSz, channelHopShuffleSpacing);
      }
      hoppos := Unsigned(channelHopOffset, TWO_64);
      status := Hopping;
    }

    /** The scan of the failure list for position pos. */
    method ErrSeen(pos: nat) returns (seen: bool)
      ensures seen <==> pos in channelHopFailureList
    {
      seen := false;
      for i := 0 to |channelHopFailureList|
        invariant !seen && pos !in channelHopFailureList[..i]
      {
        if channelHopFailureList[i] == pos {
          return true;
        }
      }
    }

    /** Record the tuned position, unless the callback succeeded or it is recorded already. */
    method RecordFailure(r: int)
      requires Parallel(State())
      modifies this
      ensures State() == Recorded(old(State()), r)
    {
      if r == 0 {
        var pos := hoppos % |channelHopList|;
        var seen := ErrSeen(pos);
        if !seen {
          channelHopFailureList := [pos] + channelHopFailureList;
          channelHopFailureListSz := channelHopFailureListSz + 1;
        }
      }
    }

    /** One turn of the thread, the tuning callback having returned r. */
    method HopTurn(r: int)
      requires Parallel(State())
      modifies this
      ensures State() == Turn(old(State()), r)
      ensures old(Inv(State()) && status != TooManyErrors) ==> Inv(State()) && status != TooManyErrors
    {
      hide Copied, Recorded;
      if Inv(State()) && status != TooManyErrors {
        TurnKeepsInv(State(), r);
      }
      if status != Hopping {
        return;
      }
      if r < 0 {
        status := CallbackFailed;
        return;
      }
      RecordFailure(r);
      RecordedFields(old(State()), r);
      hoppos := (hoppos + HopStep()) % TWO_64;
      if hoppos % |channelHopList| == 0 && channelHopFailureListSz != 0 {
        if channelHopFailureListSz == |channelHopList| {
          status := AllFailed;
          return;
        }
        if channelHopFailureListSz > |channelHopList| {
          status := TooManyErrors;
          return;
        }
        PruneFailed();
      }
    }

    /** Copy the channels that are not recorded as failed to two new lists, and forget the failures. */
    method PruneFailed()
      requires Parallel(State()) && channelHopFailureListSz < |channelHopList|
      modifies this
      ensures State() == old(State()).(
        names := Copied(old(channelHopList), old(channelHopFailureList)),
        privs := Copied(old(customChannelHopList), old(channelHopFailureList)),
        failures := [], failuresSz := 0)
    {
      hide Keep;
      var newSz := |channelHopList| - channelHopFailureListSz;
      var list, custom := channelHopList, customChannelHopList;
      ghost var failures := channelHopFailureList;
      var names, privs := [], [];
      var i := 0;
      KeepNone(list, failures);
      KeepNone(custom, failures);
      while i < |list| && |names| < newSz
        invariant 0 <= i <= |list| == |custom|
        invariant names == Keep(list[..i], failures) && privs == Keep(custom[..i], failures)
        invariant |names| == |privs| <= newSz
        modifies {}
      {
        var seen := ErrSeen(i);
        KeepNext(list, i, failures);
        KeepNext(custom, i, failures);
        if !seen {
          names := names + [list[i]];
          privs := privs + [custom[i]];
        }
        i := i + 1;
      }
      CopyStops(list, i, failures);
      CopyStops(custom, i, failures);
      channelHopList, customChannelHopList := names, privs;
      channelHopFailureList, channelHopFailureListSz := [], 0;
    }
  }

  lemma KeepNone<T>(list: seq<T>, failures: seq<nat>)
    ensures Keep(list[..0], failures) == []
  {
  }

  lemma KeepNext<T>(list: seq<T>, i: nat, failures: seq<nat>)
    requires i < |list|
    ensures Keep(list[..i + 1], failures) == Keep(list[..i], failures) + if i in failures then [] else [list[i]]
  {
    assert list[..i + 1][..i] == list[..i];
  }

  /** Where the copy loop stops, the new list is full and holds what it should. */
  lemma CopyStops<T>(list: seq<T>, i: nat, failures: seq<nat>)
    requires |failures| <= |list| && i <= |list|
    requires |Keep(list[..i], failures)| <= |list| - |failures|
    requires i == |list| || |Keep(list[..i], failures)| == |list| - |failures|
    ensures Keep(list[..i], failures) == Copied(list, failures)
  {
    hide Keep;
    KeepEnough(list, failures);
    KeepPrefix(list, i, failures);
    if i == |list| {
      assert list[..i] == list;
    }
  }

  lemma {:induction false} KeepPrefix<T>(list: seq<T>, i: nat, failures: seq<nat>)
    requires i <= |list|
    ensures Keep(list[..i], failures) <= Keep(list, failures)
    decreases |list| - i
  {
    hide Keep;
    if i == |list| {
      assert list[..i] == list;
    } else {
      KeepNext(list, i, failures);
      KeepPrefix(list, i + 1, failures);
    }
  }
}
