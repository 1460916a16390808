/** The records and the registry of kismet/alertracker.cc that the rate limiter works on. */
module AlertTracker {
  import opened AlertLimiter
  import opened Common

  function UpperChar(c: char): char {
    if 'a' <= c <= 'z' then (c as int - 32) as char else c
  }

  /** `str_upper` */
  function Upper(s: string): string {
    seq(|s|, i requires 0 <= i < |s| => UpperChar(s[i]))
  }

  lemma UpperTwice(s: string)
    ensures Upper(Upper(s)) == Upper(s)
  {
  }

  /** `tracked_alert_definition`: the limits, the counters and the time of the last alert. */
  class AlertDefinition {
    const header: string
    const limits: Limits
    var burstSent: nat
    var totalSent: nat
    var timeLast: real
    ghost const registered: real
    ghost var events: seq<Event>

    constructor (header: string, limits: Limits, ghost clock: real)
      ensures this.header == header && this.limits == limits
      ensures Counters() == Rate(0, 0, 0.0) && events == [] && Kept() && Steady(clock)
    {
      this.header, this.limits := header, limits;
      burstSent, totalSent, timeLast := 0, 0, 0.0;
      registered, events := clock, [];
    }

    /** The counters are what the questions and raises so far have made of them. */
    ghost predicate Kept()
      reads this
    {
      Counters() == Run(limits, events).rate
    }

    /** Those came in the order of their times, up to the clock. */
    ghost predicate Steady(clock: real)
      reads this
    {
      Monotone(registered, events) && Clock(registered, events) <= clock
    }

    /** The alerts sent so far. */
    ghost function Log(): seq<Sent>
      reads this
    {
      Run(limits, events).log
    }

    function Counters(): Rate
      reads this
    {
      Rate(burstSent, totalSent, timeLast)
    }

    /** `check_times` */
    method CheckTimes(now: real) returns (allowed: bool)
      modifies this`burstSent, this`totalSent
      ensures allowed == Allowed(limits, old(Counters()), now)
      ensures Counters() == Refreshed(limits, old(Counters()), now)
    {
      if limits.limitRate == 0 {
        return false;
      }
      if timeLast < (now.Floor - Seconds(limits.limitUnit)) as real {
        totalSent := 0;
        burstSent := 0;
        return true;
      }
      if timeLast < (now.Floor - Seconds(limits.burstUnit)) as real {
        burstSent := 0;
      }
      return burstSent < limits.limitBurst && totalSent < limits.limitRate;
    }

    /** A question, entered in the history. */
    method Ask(now: real) returns (allowed: bool)
      requires Kept()
      modifies this
      ensures allowed == Allowed(limits, old(Counters()), now)
      ensures Counters() == Refreshed(limits, old(Counters()), now)
      ensures Kept() && events == old(events) + [Potential(now)] && Log() == old(Log())
      ensures old(Steady(now)) ==> Steady(now)
    {
      hide Refreshed, Allowed, Run;
      RunNext(limits, events, Potential(now));
      if Steady(now) {
        MonotoneNext(registered, events, Potential(now));
      }
      allowed := CheckTimes(now);
      events := events + [Potential(now)];
    }

    /** The rate part of `raise_alert`, check and increment in one step. */
    method Raise(now: real, tm: real) returns (sent: bool)
      requires Kept()
      modifies this
      ensures sent == Allowed(limits, old(Counters()), now)
      ensures Counters() == Raised(limits, old(Counters()), now, tm)
      ensures Kept() && events == old(events) + [Event.Raise(now, tm)]
      ensures old(Steady(now)) && now <= tm ==> Steady(tm)
      ensures Log() == old(Log()) + if sent then [Sent(tm, burstSent, totalSent)] else []
    {
      hide Refreshed, Allowed, Run;
      RunNext(limits, events, Event.Raise(now, tm));
      if Steady(now) && now <= tm {
        MonotoneNext(registered, events, Event.Raise(now, tm));
      }
      events := events + [Event.Raise(now, tm)];
      sent := CheckTimes(now);
      if sent {
        burstSent := burstSent + 1;
        totalSent := totalSent + 1;
        timeLast := tm;
      }
    }
  }

  /** The name map after a registration: an entry that is there already is not overwritten. */
  function NamesAfter(names: map<string, nat>, header: string, reference: nat): map<string, nat> {
    map[Upper(header) := reference] + names
  }

  lemma NamesAfterIs(names: map<string, nat>, header: string, reference: nat)
    ensures Upper(header) in names ==> NamesAfter(names, header, reference) == names
    ensures Upper(header) !in names ==> NamesAfter(names, header, reference) == names[Upper(header) := reference]
  {
  }

  ghost predicate RefsValid(refs: map<nat, AlertDefinition>, next: nat) {
    && (forall r :: r in refs ==> r < next && Registrable(refs[r].limits))
    && (forall r, q :: r in refs && q in refs && r != q ==> refs[r] != refs[q])
  }

  ghost predicate RefsKept(refs: map<nat, AlertDefinition>)
    reads refs.Values
  {
    forall r :: r in refs ==> refs[r].Kept()
  }

  ghost predicate RefsSteady(refs: map<nat, AlertDefinition>, clock: real)
    reads refs.Values
  {
    forall r :: r in refs ==> refs[r].Steady(clock)
  }

  ghost predicate NamesValid(names: map<string, nat>, refs: map<nat, AlertDefinition>) {
    forall h :: h in names ==> h == Upper(h) && names[h] in refs && refs[names[h]].header == h
  }

  lemma RefsFresh(refs: map<nat, AlertDefinition>, next: nat)
    requires RefsValid(refs, next)
    ensures next !in refs
  {
  }

  lemma RefsAdd(refs: map<nat, AlertDefinition>, next: nat, arec: AlertDefinition)
    requires RefsValid(refs, next) && Registrable(arec.limits) && forall r :: r in refs ==> refs[r] != arec
    ensures RefsValid(refs[next := arec], next + 1)
  {
  }

  lemma NamesAdd(names: map<string, nat>, refs: map<nat, AlertDefinition>, next: nat, arec: AlertDefinition, header: string)
    requires NamesValid(names, refs) && next !in refs && arec.header == Upper(header)
    ensures NamesValid(NamesAfter(names, header, next), refs[next := arec])
  {
    hide Upper;
    UpperTwice(header);
  }

  class AlertRegistry {
    var nextAlertId: nat
    var alertNameMap: map<string, nat>
    var alertRefMap: map<nat, AlertDefinition>
    ghost var clock: real
    ghost var steady: bool

    /** References are handed out once, no two share a record, every record obeys the registration rule, and its
        counters come from its own history. The clock is the time of the last call, and steady that it has never
        gone back. */
    ghost predicate Valid()
      reads this, alertRefMap.Values
    {
      && RefsValid(alertRefMap, nextAlertId) && NamesValid(alertNameMap, alertRefMap)
      && RefsKept(alertRefMap) && (steady ==> RefsSteady(alertRefMap, clock))
    }

    constructor (ghost start: real)
      ensures Valid() && alertNameMap == map[] && alertRefMap == map[] && clock == start && steady
    {
      nextAlertId := 0;
      alertNameMap, alertRefMap := map[], map[];
      clock, steady := start, true;
    }

    /** Registration refuses a header that is in the name map as given, and a burst unit above the limit unit. */
    method RegisterAlert(header: string, unit: TimeUnit, rate: nat, burstUnit: TimeUnit, burst: nat)
      returns (reference: int)
      requires Valid()
      modifies this
      ensures Valid() && clock == old(clock) && steady == old(steady)
      ensures reference == -1 <==> header in old(alertNameMap) || Seconds(burstUnit) > Seconds(unit)
      ensures reference == -1 ==>
        alertNameMap == old(alertNameMap) && alertRefMap == old(alertRefMap) && nextAlertId == old(nextAlertId)
      ensures reference != -1 ==>
        && reference == old(nextAlertId) && nextAlertId == old(nextAlertId) + 1
        && alertNameMap == NamesAfter(old(alertNameMap), header, reference)
        && reference in alertRefMap && alertRefMap == old(alertRefMap)[reference := alertRefMap[reference]]
        && fresh(alertRefMap[reference])
        && alertRefMap[reference].Counters() == Rate(0, 0, 0.0) && alertRefMap[reference].Log() == []
        && alertRefMap[reference].limits == Limits(unit, rate, burstUnit, burst)
        && alertRefMap[reference].header == Upper(header)
    {
      hide Upper, Seconds, RefsValid, NamesValid, NamesAfter, Monotone;
      if header in alertNameMap {
        return -1;
      }
      if Seconds(burstUnit) > Seconds(unit) {
        return -1;
      }
      var arec := new AlertDefinition(Upper(header), Limits(unit, rate, burstUnit, burst), clock);
      reference := nextAlertId;
      nextAlertId := nextAlertId + 1;
      RefsFresh(alertRefMap, reference);
      RefsAdd(alertRefMap, reference, arec);
      NamesAdd(alertNameMap, alertRefMap, reference, arec, header);
      NamesAfterIs(alertNameMap, header, reference);
      if Upper(header) !in alertNameMap {
        alertNameMap := alertNameMap[Upper(header) := reference];
      }
      alertRefMap := alertRefMap[reference := arec];
    }

    /** `potential_alert` */
    method PotentialAlert(reference: int, now: real) returns (allowed: bool)
      requires Valid()
      modifies this`clock, this`steady, if reference >= 0 && reference in alertRefMap then {alertRefMap[reference]} else {}
      ensures Valid() && clock == now && steady == (old(steady) && old(clock) <= now)
      ensures if reference >= 0 && reference in alertRefMap then
          var arec := alertRefMap[reference];
          && allowed == Allowed(arec.limits, old(arec.Counters()), now)
          && arec.Counters() == Refreshed(arec.limits, old(arec.Counters()), now)
          && arec.Log() == old(arec.Log())
        else !allowed
    {
      hide RefsValid, NamesValid, Monotone, Run, Allowed, Refreshed;
      SteadyLater(alertRefMap, clock, now);
      steady, clock := steady && clock <= now, now;
      if reference < 0 || reference !in alertRefMap {
        return false;
      }
      Unshared(alertRefMap, nextAlertId, reference);
      allowed := alertRefMap[reference].Ask(now);
    }

    /** `raise_alert`: unknown, held back or sent. */
    method RaiseAlert(reference: int, now: real, tm: real) returns (result: int)
      requires Valid()
      modifies this`clock, this`steady, if reference >= 0 && reference in alertRefMap then {alertRefMap[reference]} else {}
      ensures Valid() && clock == tm && steady == (old(steady) && old(clock) <= now <= tm)
      ensures if reference >= 0 && reference in alertRefMap then
          var arec := alertRefMap[reference];
          && result == (if Allowed(arec.limits, old(arec.Counters()), now) then 1 else 0)
          && arec.Counters() == Raised(arec.limits, old(arec.Counters()), now, tm)
          && arec.Log() == old(arec.Log()) + if result == 1 then [Sent(tm, arec.burstSent, arec.totalSent)] else []
        else result == -1
    {
      hide RefsValid, NamesValid, Monotone, Run, Allowed, Raised;
      SteadyLater(alertRefMap, clock, now);
      SteadyLater(alertRefMap, now, tm);
      steady, clock := steady && clock <= now <= tm, tm;
      if reference < 0 || reference !in alertRefMap {
        return -1;
      }
      Unshared(alertRefMap, nextAlertId, reference);
      var sent := alertRefMap[reference].Raise(now, tm);
      return if sent then 1 else 0;
    }
  }

  lemma SteadyLater(refs: map<nat, AlertDefinition>, clock: real, now: real)
    ensures RefsSteady(refs, clock) && clock <= now ==> RefsSteady(refs, now)
  {
    hide Monotone;
  }

  lemma Unshared(refs: map<nat, AlertDefinition>, next: nat, reference: nat)
    requires RefsValid(refs, next) && reference in refs
    ensures forall r :: r in refs && r != reference ==> refs[r] != refs[reference]
  {
  }

  /** Whatever registrations, questions and raises a registry has seen, every alert in it has kept both limits:
      while the clock does not go back, no closed window holds more of what it sent than its rates allow. */
  lemma RegistryKeepsWindows(registry: AlertRegistry, reference: nat, from: real)
    requires registry.Valid() && registry.steady && reference in registry.alertRefMap
    ensures var arec := registry.alertRefMap[reference];
      && CountIn(arec.Log(), from, Seconds(arec.limits.limitUnit)) <= arec.limits.limitRate
      && CountIn(arec.Log(), from, Seconds(arec.limits.burstUnit)) <= Max1(arec.limits.limitBurst)
  {
    hide Run, CountIn, Monotone, Registrable;
    var arec := registry.alertRefMap[reference];
    assert arec.Steady(registry.clock);
    WindowLimits(arec.limits, arec.registered, arec.events, from);
  }

  /** And it has sent whatever its limits allow: when the next raise of a registered alert is sent. */
  lemma RegistryRaiseIff(registry: AlertRegistry, reference: nat, now: real)
    requires registry.Valid() && registry.steady && reference in registry.alertRefMap && registry.clock <= now
    ensures var arec := registry.alertRefMap[reference]; var l, sends := arec.limits, Sends(arec.limits, arec.events);
      Allowed(l, arec.Counters(), now) <==>
        (l.limitRate != 0
         && (Quiet(sends, Seconds(l.limitUnit), now)
             || (SinceQuiet(sends, Seconds(l.burstUnit), now) < l.limitBurst
                 && SinceQuiet(sends, Seconds(l.limitUnit), now) < l.limitRate)))
  {
    hide Run, Monotone, Registrable, Allowed, Sends, SinceQuiet, Quiet;
    var arec := registry.alertRefMap[reference];
    assert arec.Steady(registry.clock) && arec.Kept();
    AllowedIff(arec.limits, arec.registered, arec.events, now);
  }

  /** The 26 small letters become capitals, and nothing else changes. */
  lemma UpperIs(s: string, i: nat)
    requires i < |s|
    ensures CasePair(s[i], Upper(s)[i]) || (Upper(s)[i] == s[i] && forall c :: !CasePair(s[i], c))
  {
    CasePairIs(s[i], Upper(s)[i]);
    forall c
      ensures CasePair(s[i], c) ==> 'a' <= s[i] <= 'z'
    {
      CasePairIs(s[i], c);
    }
  }

  /** Names are stored in upper case but looked up as given: registering a header twice is refused the
      second time exactly when the header is all upper case. */
  lemma DuplicateRefused(names: map<string, nat>, header: string, reference: nat)
    requires header !in names
    ensures header in NamesAfter(names, header, reference) <==> header == Upper(header)
  {
  }
}
