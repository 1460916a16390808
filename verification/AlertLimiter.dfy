/** The rate limiter of kismet/alertracker.cc: two counters per alert, reset by the age of the last alert
    sent, and what they guarantee about any window of time. Times are seconds, as reals. */
module AlertLimiter {

  datatype TimeUnit = Second | Minute | Hour | Day

  /** `alert_time_unit_conv` */
  function Seconds(u: TimeUnit): nat {
    match u
    case Second => 1
    case Minute => 60
    case Hour => 3600
    case Day => 86400
  }

  datatype Limits = Limits(limitUnit: TimeUnit, limitRate: nat, burstUnit: TimeUnit, limitBurst: nat)

  datatype Rate = Rate(burstSent: nat, totalSent: nat, timeLast: real)

  /** The last alert is more than u old, by the whole seconds of the clock. */
  predicate Stale(timeLast: real, now: real, u: TimeUnit) {
    timeLast < (now.Floor - Seconds(u)) as real
  }

  /** The counters after `check_times`. */
  function Refreshed(l: Limits, s: Rate, now: real): Rate {
    if l.limitRate == 0 then s
    else if Stale(s.timeLast, now, l.limitUnit) then s.(burstSent := 0, totalSent := 0)
    else if Stale(s.timeLast, now, l.burstUnit) then s.(burstSent := 0)
    else s
  }

  /** Whether `check_times` lets an alert through. */
  predicate Allowed(l: Limits, s: Rate, now: real) {
    && l.limitRate != 0
    && (|| Stale(s.timeLast, now, l.limitUnit)
        || (Refreshed(l, s, now).burstSent < l.limitBurst && Refreshed(l, s, now).totalSent < l.limitRate))
  }

  /** The counters after an attempt to raise, sent at time tm if allowed. */
  function Raised(l: Limits, s: Rate, now: real, tm: real): Rate {
    var checked := Refreshed(l, s, now);
    if Allowed(l, s, now) then Rate(checked.burstSent + 1, checked.totalSent + 1, tm) else checked
  }

  // ----- runs -----

  /** `now` is read by the check; a raise reads the clock again when it sends. */
  datatype Event = Raise(now: real, tm: real) | Potential(now: real)

  /** An alert that was sent, and the counters as they were left. */
  datatype Sent = Sent(tm: real, burstSent: nat, totalSent: nat)

  datatype Trace = Trace(rate: Rate, log: seq<Sent>)

  function End(e: Event): real {
    if e.Raise? then e.tm else e.now
  }

  /** The time of the last event, or of the start. */
  function Clock(start: real, events: seq<Event>): real {
    if events == [] then start else End(events[|events| - 1])
  }

  /** The clock never runs backwards. */
  ghost predicate Monotone(start: real, events: seq<Event>)
    decreases |events|
  {
    events == [] ||
    (var n := |events| - 1;
     && Monotone(start, events[..n])
     && Clock(start, events[..n]) <= events[n].now <= End(events[n]))
  }

  function Apply(l: Limits, t: Trace, e: Event): Trace {
    match e
    case Potential(now) => t.(rate := Refreshed(l, t.rate, now))
    case Raise(now, tm) =>
      var rate := Raised(l, t.rate, now, tm);
      Trace(rate, if Allowed(l, t.rate, now) then t.log + [Sent(tm, rate.burstSent, rate.totalSent)] else t.log)
  }

  /** A run from a freshly registered alert. */
  function Run(l: Limits, events: seq<Event>): Trace
    decreases |events|
  {
    if events == [] then Trace(Rate(0, 0, 0.0), [])
    else Apply(l, Run(l, events[..|events| - 1]), events[|events| - 1])
  }

  lemma RunNext(l: Limits, events: seq<Event>, e: Event)
    ensures Run(l, events + [e]) == Apply(l, Run(l, events), e)
  {
    assert (events + [e])[..|events|] == events;
  }

  // ----- windows -----

  /** Of any cap + 1 consecutive alerts, the last is more than `width` after the first. */
  ghost predicate Spaced(log: seq<Sent>, cap: nat, width: nat) {
    forall i :: 0 <= i && i + cap < |log| ==> log[i].tm + width as real < log[i + cap].tm
  }

  function Max1(cap: nat): nat {
    if cap == 0 then 1 else cap
  }

  /** One counter: the alerts since its last reset are few, and far from all earlier ones; an idle counter
      is far from the clock. */
  ghost predicate CounterInv(log: seq<Sent>, count: nat, cap: nat, width: nat, clock: real) {
    && count <= |log| && count <= Max1(cap)
    && (forall i, j :: 0 <= i < |log| - count <= j < |log| ==> log[i].tm + width as real < log[j].tm)
    && (count == 0 ==> forall i :: 0 <= i < |log| ==> log[i].tm + width as real < clock.Floor as real)
    && Spaced(log, Max1(cap), width)
  }

  ghost predicate Ordered(t: Trace, clock: real) {
    && (forall i, j :: 0 <= i < j < |t.log| ==> t.log[i].tm <= t.log[j].tm)
    && (t.log != [] ==> t.log[|t.log| - 1].tm == t.rate.timeLast)
    && (forall i :: 0 <= i < |t.log| ==> t.log[i].tm <= t.rate.timeLast)
  }

  lemma CounterReset(t: Trace, count: nat, cap: nat, u: TimeUnit, clock: real, now: real)
    requires Ordered(t, clock) && CounterInv(t.log, count, cap, Seconds(u), clock) && clock <= now
    requires Stale(t.rate.timeLast, now, u)
    ensures CounterInv(t.log, 0, cap, Seconds(u), now)
  {
  }

  lemma FloorMonotone(a: real, b: real)
    requires a <= b
    ensures a.Floor <= b.Floor
  {
  }

  lemma CounterWait(t: Trace, count: nat, cap: nat, width: nat, clock: real, now: real)
    requires CounterInv(t.log, count, cap, width, clock) && clock <= now
    ensures CounterInv(t.log, count, cap, width, now)
  {
    FloorMonotone(clock, now);
    if count == 0 {
      forall i | 0 <= i < |t.log|
        ensures t.log[i].tm + width as real < now.Floor as real
      {
        assert t.log[i].tm + width as real < clock.Floor as real;
      }
    }
  }

  lemma CounterSend(t: Trace, count: nat, cap: nat, width: nat, now: real, sent: Sent)
    requires Ordered(t, now) && CounterInv(t.log, count, cap, width, now) && now <= sent.tm
    requires count == 0 || count < cap
    requires forall i :: 0 <= i < |t.log| ==> t.log[i].tm <= sent.tm
    ensures CounterInv(t.log + [sent], count + 1, cap, width, sent.tm)
  {
  }

  ghost predicate RunInv(l: Limits, t: Trace, clock: real) {
    && Ordered(t, clock)
    && (l.limitRate == 0 ==> t.log == [])
    && (t.log != [] ==> t.rate.timeLast <= clock)
    && CounterInv(t.log, t.rate.totalSent, l.limitRate, Seconds(l.limitUnit), clock)
    && CounterInv(t.log, t.rate.burstSent, l.limitBurst, Seconds(l.burstUnit), clock)
  }

  /** The registration rule: the burst unit is no longer than the limit unit. */
  predicate Registrable(l: Limits) {
    Seconds(l.burstUnit) <= Seconds(l.limitUnit)
  }

  lemma CheckKeepsInv(l: Limits, t: Trace, clock: real, now: real)
    requires Registrable(l) && RunInv(l, t, clock) && clock <= now
    ensures RunInv(l, t.(rate := Refreshed(l, t.rate, now)), now)
  {
    hide CounterInv;
    CounterWait(t, t.rate.totalSent, l.limitRate, Seconds(l.limitUnit), clock, now);
    CounterWait(t, t.rate.burstSent, l.limitBurst, Seconds(l.burstUnit), clock, now);
    if Stale(t.rate.timeLast, now, l.limitUnit) {
      CounterReset(t, t.rate.totalSent, l.limitRate, l.limitUnit, clock, now);
    }
    if Stale(t.rate.timeLast, now, l.burstUnit) {
      CounterReset(t, t.rate.burstSent, l.limitBurst, l.burstUnit, clock, now);
    }
  }

  lemma WaitKeepsInv(l: Limits, t: Trace, clock: real, now: real)
    requires RunInv(l, t, clock) && clock <= now
    ensures RunInv(l, t, now)
  {
    hide CounterInv;
    CounterWait(t, t.rate.totalSent, l.limitRate, Seconds(l.limitUnit), clock, now);
    CounterWait(t, t.rate.burstSent, l.limitBurst, Seconds(l.burstUnit), clock, now);
  }

  lemma SendKeepsInv(l: Limits, t: Trace, now: real, tm: real, sent: Sent)
    requires RunInv(l, t, now) && now <= tm && l.limitRate != 0
    requires t.rate.totalSent == 0 || t.rate.totalSent < l.limitRate
    requires t.rate.burstSent == 0 || t.rate.burstSent < l.limitBurst
    requires sent == Sent(tm, t.rate.burstSent + 1, t.rate.totalSent + 1)
    ensures RunInv(l, Trace(Rate(t.rate.burstSent + 1, t.rate.totalSent + 1, tm), t.log + [sent]), tm)
  {
    hide CounterInv;
    CounterSend(t, t.rate.totalSent, l.limitRate, Seconds(l.limitUnit), now, sent);
    CounterSend(t, t.rate.burstSent, l.limitBurst, Seconds(l.burstUnit), now, sent);
  }

  lemma ApplyKeepsInv(l: Limits, t: Trace, clock: real, e: Event)
    requires Registrable(l) && RunInv(l, t, clock) && clock <= e.now <= End(e)
    ensures RunInv(l, Apply(l, t, e), End(e))
  {
    hide RunInv;
    CheckKeepsInv(l, t, clock, e.now);
    if e.Raise? {
      var checked := t.(rate := Refreshed(l, t.rate, e.now));
      if Allowed(l, t.rate, e.now) {
        var rate := Raised(l, t.rate, e.now, e.tm);
        SendKeepsInv(l, checked, e.now, e.tm, Sent(e.tm, rate.burstSent, rate.totalSent));
      } else {
        WaitKeepsInv(l, checked, e.now, e.tm);
      }
    }
  }

  lemma {:induction false} RunKeepsInv(l: Limits, start: real, events: seq<Event>)
    requires Registrable(l) && Monotone(start, events)
    ensures RunInv(l, Run(l, events), Clock(start, events))
    decreases |events|
  {
    hide RunInv, Apply;
    if events == [] {
      EmptyRunInv(l, start);
    } else {
      var n := |events| - 1;
      RunKeepsInv(l, start, events[..n]);
      ApplyKeepsInv(l, Run(l, events[..n]), Clock(start, events[..n]), events[n]);
    }
  }

  lemma EmptyRunInv(l: Limits, start: real)
    ensures RunInv(l, Run(l, []), start)
  {
  }

  /** How many alerts were sent in the closed window from `from` to `from + width`. */
  function CountIn(log: seq<Sent>, from: real, width: nat): nat {
    if log == [] then 0
    else CountIn(log[..|log| - 1], from, width) + if from <= log[|log| - 1].tm <= from + width as real then 1 else 0
  }

  /** Alerts in order of time, spaced out, leave at most cap of them in any window. */
  lemma {:induction false} SpacedWindow(log: seq<Sent>, cap: nat, width: nat, from: real)
    requires cap >= 1 && Spaced(log, cap, width)
    requires forall i, j :: 0 <= i < j < |log| ==> log[i].tm <= log[j].tm
    ensures CountIn(log, from, width) <= cap
    decreases |log|
  {
    if log != [] {
      var n := |log| - 1;
      SpacedWindow(log[..n], cap, width, from);
      if from <= log[n].tm <= from + width as real && n >= cap {
        assert log[n - cap].tm + width as real < log[(n - cap) + cap].tm;
        CountAfter(log[..n], n - cap, from, width);
      } else {
        CountBound(log, from, width);
      }
    }
  }

  lemma {:induction false} CountBound(log: seq<Sent>, from: real, width: nat)
    ensures CountIn(log, from, width) <= |log|
    decreases |log|
  {
    if log != [] {
      CountBound(log[..|log| - 1], from, width);
    }
  }

  /** If the alert at k and all before it are older than the window, only later ones are in it. */
  lemma {:induction false} CountAfter(log: seq<Sent>, k: nat, from: real, width: nat)
    requires k < |log| && forall i :: 0 <= i <= k ==> log[i].tm < from
    ensures CountIn(log, from, width) <= |log| - 1 - k
    decreases |log|
  {
    var n := |log| - 1;
    if k < n {
      CountAfter(log[..n], k, from, width);
    } else {
      CountNone(log, from, width);
    }
  }

  lemma {:induction false} CountNone(log: seq<Sent>, from: real, width: nat)
    requires forall i :: 0 <= i < |log| ==> log[i].tm < from
    ensures CountIn(log, from, width) == 0
    decreases |log|
  {
    if log != [] {
      CountNone(log[..|log| - 1], from, width);
    }
  }

  /** In any run, no closed window of the limit unit holds more than limitRate alerts, and none of the burst
      unit more than limitBurst, or one if that is zero. */
  lemma WindowLimits(l: Limits, start: real, events: seq<Event>, from: real)
    requires Registrable(l) && Monotone(start, events)
    ensures CountIn(Run(l, events).log, from, Seconds(l.limitUnit)) <= l.limitRate
    ensures CountIn(Run(l, events).log, from, Seconds(l.burstUnit)) <= Max1(l.limitBurst)
  {
    hide Run, CountIn;
    RunKeepsInv(l, start, events);
    var t := Run(l, events);
    SpacedWindow(t.log, Max1(l.limitRate), Seconds(l.limitUnit), from);
    SpacedWindow(t.log, Max1(l.limitBurst), Seconds(l.burstUnit), from);
    if l.limitRate == 0 {
      CountNone(t.log, from, Seconds(l.limitUnit));
    }
  }

  // ----- the two conditions -----

  lemma OneRaise(l: Limits, at: real)
    requires l.limitRate != 0 && at > 86401.0
    ensures Run(l, [Raise(at, at)]) == Trace(Rate(1, 1, at), [Sent(at, 1, 1)])
    ensures CountIn(Run(l, [Raise(at, at)]).log, at, Seconds(l.burstUnit)) == 1
    ensures Monotone(0.0, [Raise(at, at)])
  {
    assert [Raise(at, at)][..0] == [];
    assert Run(l, []) == Trace(Rate(0, 0, 0.0), []);
    assert Stale(0.0, at, l.limitUnit) by {
      FloorMonotone(86401.0, at);
    }
    assert [Sent(at, 1, 1)][..0] == [];
    assert Monotone(0.0, []);
  }

  /** The burst limit holds in every run exactly when it is not zero, or nothing is sent at all: the first
      alert after a quiet time is let through before the burst limit is looked at. */
  lemma BurstLimitExact(l: Limits)
    requires Registrable(l)
    ensures (forall start, events, from :: Monotone(start, events) ==>
               CountIn(Run(l, events).log, from, Seconds(l.burstUnit)) <= l.limitBurst)
       <==> l.limitBurst >= 1 || l.limitRate == 0
  {
    hide Run, CountIn, Monotone;
    if l.limitBurst >= 1 || l.limitRate == 0 {
      forall start, events, from | Monotone(start, events)
        ensures CountIn(Run(l, events).log, from, Seconds(l.burstUnit)) <= l.limitBurst
      {
        WindowLimits(l, start, events, from);
        if l.limitRate == 0 {
          RunKeepsInv(l, start, events);
          CountNone(Run(l, events).log, from, Seconds(l.burstUnit));
        }
      }
    } else {
      OneRaise(l, 90000.0);
      var events := [Raise(90000.0, 90000.0)];
      assert Monotone(0.0, events) && CountIn(Run(l, events).log, 90000.0, Seconds(l.burstUnit)) == 1;
    }
  }

  /** Raise number i of a run that raises just often enough for every one to follow a quiet limit unit. */
  function SpreadAt(l: Limits, i: nat): nat {
    90000 + i * (Seconds(l.limitUnit) + 1)
  }

  function Spread(l: Limits, k: nat): seq<Event> {
    if k == 0 then []
    else Spread(l, k - 1) + [Raise(SpreadAt(l, k - 1) as real, SpreadAt(l, k - 1) as real)]
  }

  /** Every one of those is sent, whatever the burst limit. */
  lemma {:induction false} SpreadSends(l: Limits, k: nat)
    requires l.limitRate != 0
    ensures var t := Run(l, Spread(l, k));
      && |t.log| == k && (forall i :: 0 <= i < k ==> t.log[i].tm == SpreadAt(l, i) as real)
      && t.rate.timeLast == if k == 0 then 0.0 else SpreadAt(l, k - 1) as real
    ensures Monotone(0.0, Spread(l, k)) && Clock(0.0, Spread(l, k)) == if k == 0 then 0.0 else SpreadAt(l, k - 1) as real
  {
    if k != 0 {
      hide SpreadAt, Run, Monotone, Apply;
      var before, e := Spread(l, k - 1), Raise(SpreadAt(l, k - 1) as real, SpreadAt(l, k - 1) as real);
      SpreadSends(l, k - 1);
      SpreadSteps(l, k - 1);
      RunNext(l, before, e);
      SendsWhenStale(l, Run(l, before), e);
      MonotoneNext(0.0, before, e);
    } else {
      assert Run(l, []) == Trace(Rate(0, 0, 0.0), []);
    }
  }

  lemma MonotoneNext(start: real, events: seq<Event>, e: Event)
    requires Monotone(start, events) && Clock(start, events) <= e.now <= End(e)
    ensures Monotone(start, events + [e]) && Clock(start, events + [e]) == End(e)
  {
    assert (events + [e])[..|events|] == events;
  }

  lemma SpreadSteps(l: Limits, i: nat)
    ensures SpreadAt(l, i) >= 90000
    ensures i > 0 ==> SpreadAt(l, i) == SpreadAt(l, i - 1) + Seconds(l.limitUnit) + 1
  {
    assert i > 0 ==> i * (Seconds(l.limitUnit) + 1) == (i - 1) * (Seconds(l.limitUnit) + 1) + (Seconds(l.limitUnit) + 1);
  }

  lemma SendsWhenStale(l: Limits, t: Trace, e: Event)
    requires l.limitRate != 0 && e.Raise? && Stale(t.rate.timeLast, e.now, l.limitUnit)
    ensures Apply(l, t, e).rate.timeLast == e.tm
    ensures exists sent: Sent :: sent.tm == e.tm && Apply(l, t, e).log == t.log + [sent]
  {
  }

  lemma {:induction false} CountAll(log: seq<Sent>, from: real, width: nat)
    requires forall i :: 0 <= i < |log| ==> from <= log[i].tm <= from + width as real
    ensures CountIn(log, from, width) == |log|
    decreases |log|
  {
    if log != [] {
      CountAll(log[..|log| - 1], from, width);
    }
  }

  /** Without the registration rule the burst limit fails, by any number of alerts for which the burst unit has
      room at one more second than the limit unit. */
  lemma RegistrationRuleNeeded(l: Limits, k: nat)
    requires l.limitRate != 0 && k * (Seconds(l.limitUnit) + 1) <= Seconds(l.burstUnit)
    ensures Monotone(0.0, Spread(l, k + 1))
    ensures CountIn(Run(l, Spread(l, k + 1)).log, 90000.0, Seconds(l.burstUnit)) == k + 1
  {
    hide Run, Spread, CountIn, Monotone;
    SpreadSends(l, k + 1);
    forall i: nat | i < k + 1
      ensures 90000 <= SpreadAt(l, i) <= 90000 + Seconds(l.burstUnit)
    {
      assert (k - i) * (Seconds(l.limitUnit) + 1) >= 0;
      assert i * (Seconds(l.limitUnit) + 1) + (k - i) * (Seconds(l.limitUnit) + 1) == k * (Seconds(l.limitUnit) + 1);
    }
    hide SpreadAt;
    CountAll(Run(l, Spread(l, k + 1)).log, 90000.0, Seconds(l.burstUnit));
  }

  /** For a burst limit of one the rule is exactly what makes it hold. */
  lemma RegistrationRuleExact(l: Limits)
    requires l.limitRate != 0 && l.limitBurst == 1
    ensures (forall start, events, from :: Monotone(start, events) ==>
               CountIn(Run(l, events).log, from, Seconds(l.burstUnit)) <= l.limitBurst)
       <==> Registrable(l)
  {
    hide Run, CountIn, Monotone, Spread;
    if Registrable(l) {
      forall start, events, from | Monotone(start, events)
        ensures CountIn(Run(l, events).log, from, Seconds(l.burstUnit)) <= l.limitBurst
      {
        WindowLimits(l, start, events, from);
      }
    } else {
      RegistrationRuleNeeded(l, 1);
      var events := Spread(l, 2);
      assert Monotone(0.0, events) && CountIn(Run(l, events).log, 90000.0, Seconds(l.burstUnit)) == 2;
    }
  }

  /** After a quiet time longer than the limit unit an alert is always let through, unless squelched; one that
      was never sent is let through by its burst limit, or once the clock has passed one limit unit. */
  lemma QuietAllows(l: Limits, start: real, events: seq<Event>, now: real)
    requires Registrable(l) && Monotone(start, events) && l.limitRate != 0
    requires forall i :: 0 <= i < |Run(l, events).log| ==>
      Run(l, events).log[i].tm + Seconds(l.limitUnit) as real < now.Floor as real
    requires Run(l, events).log == [] ==> l.limitBurst != 0 || now.Floor > Seconds(l.limitUnit)
    ensures Allowed(l, Run(l, events).rate, now)
  {
    RunKeepsInv(l, start, events);
    var t := Run(l, events);
    if t.log != [] {
      assert t.log[|t.log| - 1].tm == t.rate.timeLast;
    } else {
      NothingSent(l, events);
    }
  }

  lemma {:induction false} NothingSent(l: Limits, events: seq<Event>)
    requires Run(l, events).log == []
    ensures Run(l, events).rate == Rate(0, 0, 0.0)
    decreases |events|
  {
    if events != [] {
      NothingSent(l, events[..|events| - 1]);
    }
  }

  // ----- asking is free -----

  /** The run without its `potential_alert` calls. */
  function Erase(events: seq<Event>): seq<Event>
    decreases |events|
  {
    if events == [] then []
    else
      var n := |events| - 1;
      Erase(events[..n]) + if events[n].Raise? then [events[n]] else []
  }

  /** s' may have been reset by questions since the last alert; a check at any later time resets s as well. */
  ghost predicate Alike(l: Limits, s: Rate, s': Rate, clock: real) {
    && s'.timeLast == s.timeLast
    && (|| s' == s
        || (s' == s.(burstSent := 0) && Stale(s.timeLast, clock, l.burstUnit))
        || (s' == s.(burstSent := 0, totalSent := 0) && Stale(s.timeLast, clock, l.limitUnit)))
  }

  /** A check makes the two alike again; it makes them equal unless the alert is squelched. */
  lemma CheckEqualizes(l: Limits, s: Rate, s': Rate, clock: real, now: real)
    requires Alike(l, s, s', clock) && clock <= now && Registrable(l)
    ensures Alike(l, s, Refreshed(l, s', now), now)
    ensures l.limitRate != 0 ==> Refreshed(l, s', now) == Refreshed(l, s, now)
    ensures Allowed(l, s', now) <==> Allowed(l, s, now)
    ensures Alike(l, Refreshed(l, s, now), Refreshed(l, s', now), now)
  {
    FloorMonotone(clock, now);
  }

  lemma AlikeLater(l: Limits, s: Rate, s': Rate, clock: real, now: real)
    requires Alike(l, s, s', clock) && clock <= now
    ensures Alike(l, s, s', now)
  {
    FloorMonotone(clock, now);
  }

  /** One event on a run with its questions and on the run without. */
  lemma EventAlike(l: Limits, t: Trace, t': Trace, clock: real, e: Event)
    requires Registrable(l) && clock <= e.now <= End(e)
    requires t.log == t'.log && Alike(l, t.rate, t'.rate, clock)
    ensures e.Raise? ==> Apply(l, t, e).log == Apply(l, t', e).log
    ensures e.Raise? ==> Alike(l, Apply(l, t, e).rate, Apply(l, t', e).rate, End(e))
    ensures e.Potential? ==> Apply(l, t', e).log == t.log && Alike(l, t.rate, Apply(l, t', e).rate, End(e))
  {
    hide Alike, Refreshed, Allowed;
    CheckEqualizes(l, t.rate, t'.rate, clock, e.now);
    if e.Raise? {
      AlikeLater(l, Refreshed(l, t.rate, e.now), Refreshed(l, t'.rate, e.now), e.now, e.tm);
      AlikeSelf(l, Raised(l, t.rate, e.now, e.tm), e.tm);
      SquelchedNeverAllowed(l, t.rate, e.now);
    }
  }

  /** Any number of `potential_alert` calls anywhere in a run change neither which raises succeed nor the
      counts they leave. */
  lemma {:induction false} AskingIsFree(l: Limits, start: real, events: seq<Event>)
    requires Registrable(l) && Monotone(start, events)
    ensures Run(l, events).log == Run(l, Erase(events)).log
    ensures Alike(l, Run(l, Erase(events)).rate, Run(l, events).rate, Clock(start, events))
    decreases |events|
  {
    hide Alike, Apply, Run;
    if events == [] {
      AlikeSelf(l, Run(l, []).rate, start);
    } else {
      var n := |events| - 1;
      var before, e := events[..n], events[n];
      AskingIsFree(l, start, before);
      EventAlike(l, Run(l, Erase(before)), Run(l, before), Clock(start, before), e);
      assert events == before + [e];
      RunNext(l, before, e);
      RunNext(l, Erase(before), e);
      if e.Potential? {
        assert Erase(events) == Erase(before);
      }
    }
  }

  lemma AlikeSelf(l: Limits, s: Rate, clock: real)
    ensures Alike(l, s, s, clock)
  {
  }

  lemma SquelchedNeverAllowed(l: Limits, s: Rate, now: real)
    ensures l.limitRate == 0 ==> !Allowed(l, s, now)
  {
  }

  // ----- exactly when an alert is sent -----

  /** The raises of the run that were sent. */
  function Sends(l: Limits, events: seq<Event>): seq<Event>
    decreases |events|
  {
    if events == [] then []
    else
      var n := |events| - 1;
      Sends(l, events[..n]) +
      if events[n].Raise? && Allowed(l, Run(l, events[..n]).rate, events[n].now) then [events[n]] else []
  }

  /** The last alert is older than so many whole seconds; with none sent, the clock itself must be. */
  predicate Quiet(sends: seq<Event>, seconds: nat, now: real) {
    (if sends == [] then 0.0 else End(sends[|sends| - 1])) + seconds as real < now.Floor as real
  }

  /** How many alerts were sent since the last quiet time of so many seconds. */
  function SinceQuiet(sends: seq<Event>, seconds: nat, now: real): (n: nat)
    ensures n <= |sends|
    decreases |sends|
  {
    if sends == [] || Quiet(sends, seconds, now) then 0
    else 1 + SinceQuiet(sends[..|sends| - 1], seconds, sends[|sends| - 1].now)
  }

  /** What a check at this or any later time finds in the counters. */
  ghost predicate Counts(l: Limits, t: Trace, sends: seq<Event>, clock: real) {
    && t.rate.timeLast == (if sends == [] then 0.0 else End(sends[|sends| - 1]))
    && forall now :: clock <= now ==>
         var checked := Refreshed(l, t.rate, now);
         && checked.burstSent == SinceQuiet(sends, Seconds(l.burstUnit), now)
         && checked.totalSent == SinceQuiet(sends, Seconds(l.limitUnit), now)
  }

  lemma StaleIsQuiet(l: Limits, t: Trace, sends: seq<Event>, u: TimeUnit, now: real)
    requires t.rate.timeLast == if sends == [] then 0.0 else End(sends[|sends| - 1])
    ensures Stale(t.rate.timeLast, now, u) <==> Quiet(sends, Seconds(u), now)
  {
  }

  lemma CheckedTwice(l: Limits, s: Rate, first: real, now: real)
    requires first <= now && Registrable(l)
    ensures Refreshed(l, Refreshed(l, s, first), now) == Refreshed(l, s, now)
  {
    FloorMonotone(first, now);
  }

  lemma CountsAfterCheck(l: Limits, t: Trace, sends: seq<Event>, clock: real, at: real)
    requires Registrable(l) && Counts(l, t, sends, clock) && clock <= at
    ensures Counts(l, t.(rate := Refreshed(l, t.rate, at)), sends, at)
  {
    hide Refreshed, SinceQuiet;
    forall now | at <= now
      ensures Refreshed(l, Refreshed(l, t.rate, at), now) == Refreshed(l, t.rate, now)
    {
      CheckedTwice(l, t.rate, at, now);
    }
    RefreshKeepsTime(l, t.rate, at);
  }

  lemma RefreshKeepsTime(l: Limits, s: Rate, now: real)
    ensures Refreshed(l, s, now).timeLast == s.timeLast
  {
  }

  /** An alert that is sent is one more than the check has found. */
  lemma CountsAfterSend(l: Limits, t: Trace, sends: seq<Event>, clock: real, e: Event)
    requires Registrable(l) && l.limitRate != 0 && Counts(l, t, sends, clock)
    requires e.Raise? && clock <= e.now <= e.tm && Allowed(l, t.rate, e.now)
    ensures Counts(l, Apply(l, t, e), sends + [e], e.tm)
  {
    hide SinceQuiet;
    var next, all := Apply(l, t, e), sends + [e];
    assert all[..|sends|] == sends;
    forall now | e.tm <= now
      ensures var checked := Refreshed(l, next.rate, now);
        && checked.burstSent == SinceQuiet(all, Seconds(l.burstUnit), now)
        && checked.totalSent == SinceQuiet(all, Seconds(l.limitUnit), now)
    {
      OneMore(sends, e, Seconds(l.burstUnit), now);
      OneMore(sends, e, Seconds(l.limitUnit), now);
    }
  }

  lemma OneMore(sends: seq<Event>, e: Event, seconds: nat, now: real)
    ensures SinceQuiet(sends + [e], seconds, now)
         == if Quiet(sends + [e], seconds, now) then 0 else 1 + SinceQuiet(sends, seconds, e.now)
  {
    assert (sends + [e])[..|sends|] == sends;
  }

  /** In any run the counters, as a check finds them, are the numbers of alerts sent since the last quiet burst
      unit and since the last quiet limit unit. */
  lemma {:induction false} CountersAreCounts(l: Limits, start: real, events: seq<Event>)
    requires Registrable(l) && l.limitRate != 0 && Monotone(start, events)
    ensures Counts(l, Run(l, events), Sends(l, events), Clock(start, events))
    decreases |events|
  {
    hide Counts, Allowed, Apply;
    if events == [] {
      CountsStart(l, start);
    } else {
      var n := |events| - 1;
      CountersAreCounts(l, start, events[..n]);
      CountsAfterEvent(l, Run(l, events[..n]), Sends(l, events[..n]), Clock(start, events[..n]), events[n]);
    }
  }

  lemma CountsStart(l: Limits, start: real)
    ensures Counts(l, Run(l, []), [], start)
  {
  }

  lemma CountsAfterEvent(l: Limits, t: Trace, sends: seq<Event>, clock: real, e: Event)
    requires Registrable(l) && l.limitRate != 0 && Counts(l, t, sends, clock) && clock <= e.now <= End(e)
    ensures Counts(l, Apply(l, t, e), sends + if e.Raise? && Allowed(l, t.rate, e.now) then [e] else [], End(e))
  {
    hide Counts, Refreshed, Allowed;
    assert sends + [] == sends;
    CountsAfterCheck(l, t, sends, clock, e.now);
    if e.Raise? && Allowed(l, t.rate, e.now) {
      CountsAfterSend(l, t, sends, clock, e);
    } else {
      CountsLater(l, t.(rate := Refreshed(l, t.rate, e.now)), sends, e.now, End(e));
    }
  }

  lemma CountsLater(l: Limits, t: Trace, sends: seq<Event>, clock: real, now: real)
    requires Counts(l, t, sends, clock) && clock <= now
    ensures Counts(l, t, sends, now)
  {
    hide Refreshed, SinceQuiet;
  }

  /** At any time after any run an alert is let through exactly if it is not squelched, and the limit unit has been
      quiet, or fewer than the burst limit were sent since the last quiet burst unit and fewer than the rate limit
      since the last quiet limit unit. */
  lemma AllowedIff(l: Limits, start: real, events: seq<Event>, now: real)
    requires Registrable(l) && Monotone(start, events) && Clock(start, events) <= now
    ensures var sends := Sends(l, events);
      Allowed(l, Run(l, events).rate, now) <==>
        (l.limitRate != 0
         && (Quiet(sends, Seconds(l.limitUnit), now)
             || (SinceQuiet(sends, Seconds(l.burstUnit), now) < l.limitBurst
                 && SinceQuiet(sends, Seconds(l.limitUnit), now) < l.limitRate)))
  {
    hide Run, Sends, SinceQuiet, Refreshed, Monotone;
    if l.limitRate != 0 {
      CountersAreCounts(l, start, events);
      StaleIsQuiet(l, Run(l, events), Sends(l, events), l.limitUnit, now);
    }
  }

  /** Those raises are the alerts of the log. */
  lemma {:induction false} LogIsSends(l: Limits, events: seq<Event>)
    ensures |Run(l, events).log| == |Sends(l, events)|
    ensures forall i :: 0 <= i < |Sends(l, events)| ==> Run(l, events).log[i].tm == End(Sends(l, events)[i])
    decreases |events|
  {
    if events != [] {
      hide Allowed, Refreshed;
      LogIsSends(l, events[..|events| - 1]);
    }
  }

  /** Until one of the limits is used up, every raise is sent. */
  lemma FirstRaisesSent(l: Limits, start: real, events: seq<Event>, now: real)
    requires Registrable(l) && Monotone(start, events) && Clock(start, events) <= now
    requires |Sends(l, events)| < l.limitBurst && |Sends(l, events)| < l.limitRate
    ensures Allowed(l, Run(l, events).rate, now)
  {
    hide Run, Sends, Monotone, Allowed, Quiet;
    AllowedIff(l, start, events, now);
  }

  /** The seconds of a unit, written out. */
  function Wait(u: TimeUnit): nat {
    if u == Second then 1 else if u == Minute then 60 else if u == Hour then 3600 else 86400
  }

  /** With the rate limit used up the next alert waits for more than its unit. */
  lemma RateUsedUpWaits(l: Limits, s: Rate, now: real)
    requires l.limitRate != 0 && Registrable(l) && s.totalSent >= l.limitRate
    ensures Allowed(l, s, now) <==> s.timeLast + Wait(l.limitUnit) as real < now.Floor as real
  {
  }

  /** With only the burst limit used up it waits for more than the burst unit. */
  lemma BurstUsedUpWaits(l: Limits, s: Rate, now: real)
    requires l.limitBurst != 0 && Registrable(l) && s.totalSent < l.limitRate && s.burstSent >= l.limitBurst
    ensures Allowed(l, s, now) <==> s.timeLast + Wait(l.burstUnit) as real < now.Floor as real
  {
  }
}
