/** Catching up: with the clock held and handlers that call nothing back, re-running the task
    until it is no longer posted signals exactly what is owed. */
module TimerCatchUp {
  import opened Words
  import opened TimerTable
  import opened TimerLiveness

  /** floor(e / d) by repeated subtraction. */
  function Quotient(e: nat, d: nat): nat
    requires d > 0
  {
    if e < d then 0 else 1 + Quotient(e - d, d)
  }

  lemma {:induction false} QuotientIsFloor(e: nat, d: nat)
    requires d > 0
    ensures Quotient(e, d) == e / d
  {
    if e >= d {
      QuotientIsFloor(e - d, d);
      assert e / d == 1 + (e - d) / d by {
        var q, r := (e - d) / d, (e - d) % d;
        assert e == (q + 1) * d + r;
        DivisionIsUnique(e, d, q + 1, r);
      }
    } else {
      DivisionIsUnique(e, d, 0, e);
    }
  }

  lemma DivisionIsUnique(e: nat, d: nat, q: nat, r: nat)
    requires d > 0 && r < d && e == q * d + r
    ensures e / d == q
  {
    var q', r' := e / d, e % d;
    assert q' * d + r' == e;
    assert (q' - q) * d == q' * d - q * d == r - r';
    SmallMultiple(q' - q, d);
  }

  lemma SmallMultiple(z: int, d: int)
    requires d > 0 && -d < z * d < d
    ensures z == 0
  {
    if z != 0 {
      var m := if z > 0 then z else -z;
      assert m * d == if z > 0 then z * d else -(z * d);
      AtLeastOnce(m, d);
    }
  }

  lemma AtLeastOnce(m: nat, d: nat)
    requires m >= 1
    ensures m * d >= d
  {
    assert m * d == (m - 1) * d + d;
  }

  /** The firings a timer has missed at instant `clock`: one for a due one-shot, and
      floor(elapsed / dt) for a periodic timer. Interval 0 is always one behind. */
  function Owed(a: Activity, clock: nat): nat {
    if a.Idle? || clock < Deadline(a) || clock < Base(a) then 0
    else if a.oneshot || a.dt == 0 then 1
    else Quotient(clock - Base(a), a.dt)
  }

  function TotalOwed(s: Table, n: nat): nat
    requires n <= NUM_TIMERS
  {
    if n == 0 then 0 else TotalOwed(s, n - 1) + Owed(Activities(s, n - 1), s.clock)
  }

  /** Where a timer stands once everything it is owed has been signalled. */
  function Settled(a: Activity, clock: nat): Activity {
    if a.Idle? || clock < Deadline(a) then a
    else if a.oneshot then Idle
    else a.(count := a.count + Owed(a, clock))
  }

  /** What a timer is owed, by division. */
  lemma OwedIsFloor(a: Activity, clock: nat)
    requires a.Active? && Base(a) <= clock
    ensures !a.oneshot && a.dt > 0 ==> Owed(a, clock) == (clock - Base(a)) / a.dt
    ensures a.oneshot || a.dt == 0 ==> Owed(a, clock) == if clock < Deadline(a) then 0 else 1
  {
    DeadlineEndsPeriod(a);
    if !a.oneshot && a.dt > 0 {
      QuotientIsFloor(clock - Base(a), a.dt);
    }
  }

  function Firings(trace: seq<Observation>, id: nat): nat {
    if trace == [] then 0
    else Firings(trace[..|trace| - 1], id) + (if trace[|trace| - 1].Fired? && trace[|trace| - 1].id == id then 1 else 0)
  }

  /** A running periodic timer of interval 0. */
  predicate ZeroPeriod(s: Table, i: nat) {
    Running(s, i) && !Activities(s, i).oneshot && Activities(s, i).dt == 0
  }

  predicate PositivePeriods(s: Table) {
    forall i :: 0 <= i < NUM_TIMERS && Running(s, i) && !Activities(s, i).oneshot ==> Activities(s, i).dt > 0
  }

  /** The standing conditions under which the signed arithmetic is exact. */
  predicate Settling(s: Table) {
    Inv(s) && Punctual(s) && ShortIntervals(s, MAX_DT)
  }

  /** One firing moves a periodic timer one step towards where it settles. */
  lemma FiringSettles(a: Activity, clock: nat)
    requires a.Active? && Deadline(a) <= clock && (!a.oneshot ==> a.dt > 0) && (a.oneshot ==> a.count == 0)
    ensures var a' := if a.oneshot then Idle else a.(count := a.count + 1);
      Owed(a', clock) == Owed(a, clock) - 1 && Settled(a', clock) == Settled(a, clock)
  {
    DeadlineEndsPeriod(a);
    if !a.oneshot {
      DeadlineEndsPeriod(a.(count := a.count + 1));
    }
  }

  lemma TotalChangesAt(s: Table, s': Table, k: nat, n: nat)
    requires k < NUM_TIMERS && n <= NUM_TIMERS && s.clock == s'.clock
    requires forall i :: 0 <= i < NUM_TIMERS && i != k ==> Activities(s', i) == Activities(s, i)
    requires Owed(Activities(s', k), s.clock) == Owed(Activities(s, k), s.clock) - 1
    ensures TotalOwed(s', n) == TotalOwed(s, n) - (if k < n then 1 else 0)
  {
    if n > 0 { TotalChangesAt(s, s', k, n - 1); }
  }

  lemma {:induction false} TotalIsZero(s: Table, n: nat)
    requires n <= NUM_TIMERS
    ensures TotalOwed(s, n) == 0 <==> forall i :: 0 <= i < n ==> Owed(Activities(s, i), s.clock) == 0
  {
    if n > 0 { TotalIsZero(s, n - 1); }
  }

  lemma OwedWhenDue(a: Activity, clock: nat)
    requires a.Active? && a.start <= clock
    ensures Owed(a, clock) > 0 <==> Deadline(a) <= clock
  {
    DeadlineEndsPeriod(a);
  }

  /** `fireTimers` finds a due slot exactly when something is owed. */
  lemma FindsWhatIsOwed(s: Table)
    requires Settling(s)
    ensures var k := FirstDue(s.timers, Wrap(s.clock), 0);
      && (k < NUM_TIMERS <==> TotalOwed(s, NUM_TIMERS) > 0)
      && (k < NUM_TIMERS ==> Running(s, k) && Deadline(Activities(s, k)) <= s.clock)
  {
    var now := Wrap(s.clock);
    var k := FirstDue(s.timers, now, 0);
    forall i | 0 <= i < NUM_TIMERS
      ensures Due(s.timers[i], now) <==> Owed(Activities(s, i), s.clock) > 0
    {
      assert Sound(s.timers[i], Activities(s, i), s.clock);
      if Running(s, i) {
        LateIsDue(s, i);
        OwedWhenDue(Activities(s, i), s.clock);
      }
    }
    TotalIsZero(s, NUM_TIMERS);
    if k < NUM_TIMERS {
      assert Sound(s.timers[k], Activities(s, k), s.clock);
      LateIsDue(s, k);
    }
  }

  /** What a passive firing of slot `k` leaves is as settled as before. */
  lemma FiringKeepsSettling(s: Table, s': Table, k: nat)
    requires Settling(s) && Inv(s') && s'.clock == s.clock && k < NUM_TIMERS
    requires s'.trace == s.trace + [Fired(k, s.clock)]
    ensures Settling(s')
    ensures forall i :: 0 <= i < NUM_TIMERS ==> Activities(s', i) == Advance(Activities(s, i), Fired(k, s.clock), i)
  {
    forall i | 0 <= i < NUM_TIMERS
      ensures Activities(s', i) == Advance(Activities(s, i), Fired(k, s.clock), i)
    {
      TrackExtends(s.trace, Fired(k, s.clock), i);
    }
    forall i | 0 <= i < NUM_TIMERS && Running(s', i)
      ensures Running(s, i) && Activities(s', i).dt == Activities(s, i).dt
      ensures TimeToDeadline(s', i) >= TimeToDeadline(s, i)
    {
      DeadlineEndsPeriod(Activities(s, i));
      DeadlineEndsPeriod(Activities(s', i));
    }
  }

  /** The passive task in full: when something is owed it signals the lowest due slot once and
      re-posts; otherwise it changes no timer and covers every deadline. */
  lemma PassiveUpdate(s: Table)
    requires Settling(s)
    ensures var s' := Update(s, 0, []);
      var k := FirstDue(s.timers, Wrap(s.clock), 0);
      && Settling(s') && s'.clock == s.clock && Covered(s')
      && s'.posted == (k < NUM_TIMERS)
      && (k < NUM_TIMERS <==> TotalOwed(s, NUM_TIMERS) > 0)
      && (k == NUM_TIMERS ==> s'.trace == s.trace)
      && (k < NUM_TIMERS ==>
           && Running(s, k) && Deadline(Activities(s, k)) <= s.clock
           && s'.trace == s.trace + [Fired(k, s.clock)]
           && forall i :: 0 <= i < NUM_TIMERS ==> Activities(s', i) == Advance(Activities(s, i), Fired(k, s.clock), i))
  {
    var k := FirstDue(s.timers, Wrap(s.clock), 0);
    var s' := Update(s, 0, []);
    FireTimersKeepsInv(s.(posted := false, alarm := None), s.clock, []);
    UpdateCovers(s, 0, []);
    FindsWhatIsOwed(s);
    if k < NUM_TIMERS {
      FiringKeepsSettling(s, s', k);
    } else {
      assert s'.trace == s.trace;
      assert forall i :: 0 <= i < NUM_TIMERS ==> Running(s', i) == Running(s, i);
    }
  }

  lemma FiringsExtend(trace: seq<Observation>, o: Observation, id: nat)
    ensures Firings(trace + [o], id) == Firings(trace, id) + (if o.Fired? && o.id == id then 1 else 0)
  {
    assert (trace + [o])[..|trace|] == trace;
  }

  /** A due firing of slot `k` lowers the total owed by one and leaves every timer's destination alone. */
  lemma FiringLowersTotal(s: Table, s': Table, k: nat)
    requires Inv(s) && PositivePeriods(s) && s'.clock == s.clock && k < NUM_TIMERS
    requires Running(s, k) && Deadline(Activities(s, k)) <= s.clock
    requires s'.trace == s.trace + [Fired(k, s.clock)]
    ensures PositivePeriods(s')
    ensures TotalOwed(s', NUM_TIMERS) == TotalOwed(s, NUM_TIMERS) - 1
    ensures forall i :: 0 <= i < NUM_TIMERS ==>
      && Settled(Activities(s', i), s.clock) == Settled(Activities(s, i), s.clock)
      && Firings(s'.trace, i) + Owed(Activities(s', i), s.clock)
         == Firings(s.trace, i) + Owed(Activities(s, i), s.clock)
  {
    var o := Fired(k, s.clock);
    assert Sound(s.timers[k], Activities(s, k), s.clock);
    FiringSettles(Activities(s, k), s.clock);
    forall i | 0 <= i < NUM_TIMERS
      ensures Activities(s', i) == Advance(Activities(s, i), o, i)
      ensures Firings(s'.trace, i) == Firings(s.trace, i) + (if i == k then 1 else 0)
    {
      TrackExtends(s.trace, o, i);
      FiringsExtend(s.trace, o, i);
    }
    TotalChangesAt(s, s', k, NUM_TIMERS);
    forall i | 0 <= i < NUM_TIMERS && Running(s', i)
      ensures Running(s, i) && Activities(s', i).dt == Activities(s, i).dt
      ensures Activities(s', i).oneshot == Activities(s, i).oneshot
    {
    }
  }

  lemma PassiveFiring(s: Table)
    requires Settling(s) && PositivePeriods(s) && TotalOwed(s, NUM_TIMERS) > 0
    ensures var s' := Update(s, 0, []);
      && PositivePeriods(s')
      && TotalOwed(s', NUM_TIMERS) == TotalOwed(s, NUM_TIMERS) - 1
      && forall i :: 0 <= i < NUM_TIMERS ==>
           && Settled(Activities(s', i), s.clock) == Settled(Activities(s, i), s.clock)
           && Firings(s'.trace, i) + Owed(Activities(s', i), s.clock)
              == Firings(s.trace, i) + Owed(Activities(s, i), s.clock)
  {
    PassiveUpdate(s);
    FiringLowersTotal(s, Update(s, 0, []), FirstDue(s.timers, Wrap(s.clock), 0));
  }

  /** The signals that are due to a timer at the instant of `s`. */
  function SignalsDue(s: Table, i: nat): int
    requires i < NUM_TIMERS && PositivePeriods(s)
  {
    var a := Activities(s, i);
    if a.Idle? then 0
    else if a.oneshot then if s.clock < Deadline(a) then 0 else 1
    else (s.clock - Base(a)) / a.dt
  }

  /** The drain of `nativeCompleteTasks`: the task runs until it is not posted any more. */
  function Drain(s: Table): (s': Table)
    requires Settling(s) && PositivePeriods(s)
    ensures Sized(s')
    decreases TotalOwed(s, NUM_TIMERS)
  {
    PassiveUpdate(s);
    if TotalOwed(s, NUM_TIMERS) == 0 then Update(s, 0, [])
    else
      PassiveFiring(s);
      Drain(Update(s, 0, []))
  }

  /** After the drain each timer has been signalled exactly as often as it was owed and stands where
      that leaves it, nothing is posted, and the alarm covers what still runs. */
  lemma {:induction false} DrainSettles(s: Table)
    requires Settling(s) && PositivePeriods(s)
    ensures var s' := Drain(s);
      && Inv(s') && s'.clock == s.clock && !s'.posted
      && (!SomeRunning(s') || AlarmCovers(s'))
      && forall i :: 0 <= i < NUM_TIMERS ==>
           && Activities(s', i) == Settled(Activities(s, i), s.clock)
           && Firings(s'.trace, i) == Firings(s.trace, i) + Owed(Activities(s, i), s.clock)
    decreases TotalOwed(s, NUM_TIMERS)
  {
    PassiveUpdate(s);
    if TotalOwed(s, NUM_TIMERS) == 0 {
      TotalIsZero(s, NUM_TIMERS);
      forall i | 0 <= i < NUM_TIMERS ensures Settled(Activities(s, i), s.clock) == Activities(s, i) {
        if Running(s, i) {
          assert Sound(s.timers[i], Activities(s, i), s.clock);
          OwedWhenDue(Activities(s, i), s.clock);
        }
      }
    } else {
      PassiveFiring(s);
      DrainSettles(Update(s, 0, []));
    }
  }

  /** Catch-up is exact: the drain signals each running one-shot once if it is due and not otherwise,
      each running periodic timer floor(elapsed / dt) times, and no other timer. */
  lemma DrainIsExact(s: Table)
    requires Settling(s) && PositivePeriods(s)
    ensures var s' := Drain(s);
      && Inv(s') && s'.clock == s.clock && !s'.posted
      && (!SomeRunning(s') || AlarmCovers(s'))
      && forall i :: 0 <= i < NUM_TIMERS ==>
           && Activities(s', i) == Settled(Activities(s, i), s.clock)
           && Firings(s'.trace, i) == Firings(s.trace, i) + SignalsDue(s, i)
  {
    DrainSettles(s);
    forall i | 0 <= i < NUM_TIMERS ensures Owed(Activities(s, i), s.clock) == SignalsDue(s, i) {
      OwedIsDue(s, i);
    }
  }

  lemma OwedIsDue(s: Table, i: nat)
    requires Inv(s) && PositivePeriods(s) && i < NUM_TIMERS
    ensures Owed(Activities(s, i), s.clock) == SignalsDue(s, i)
  {
    if Running(s, i) {
      assert Sound(s.timers[i], Activities(s, i), s.clock);
      OwedIsFloor(Activities(s, i), s.clock);
    }
  }

  // ----- When the drain ends -----

  function Repeat(s: Table, n: nat): (s': Table)
    requires Sized(s)
    ensures Sized(s')
    decreases n
  {
    if n == 0 || !s.posted then s else Repeat(Update(s, 0, []), n - 1)
  }

  /** One more round of a posted task. */
  lemma OneRound(s: Table, n: nat) returns (s': Table)
    requires Settling(s) && PositivePeriods(s) && s.posted
    ensures Sized(s') && Repeat(s, n + 1) == Repeat(s', n)
    ensures if TotalOwed(s, NUM_TIMERS) == 0 then !s'.posted
            else Settling(s') && PositivePeriods(s') && TotalOwed(s', NUM_TIMERS) == TotalOwed(s, NUM_TIMERS) - 1
  {
    PassiveUpdate(s);
    s' := Update(s, 0, []);
    if TotalOwed(s, NUM_TIMERS) > 0 { PassiveFiring(s); }
  }

  lemma NoMoreRounds(s: Table, n: nat)
    requires Sized(s) && (n == 0 || !s.posted)
    ensures Repeat(s, n) == s
  {
  }

  lemma {:induction false} EndsWithin(s: Table, n: nat, end: Table)
    requires Settling(s) && PositivePeriods(s) && TotalOwed(s, NUM_TIMERS) == n && end == Repeat(s, n + 1)
    ensures !end.posted
    decreases n
  {
    if s.posted {
      var s' := OneRound(s, n);
      if n > 0 { EndsWithin(s', n - 1, end); } else { NoMoreRounds(s', 0); }
    } else {
      NoMoreRounds(s, n + 1);
    }
  }

  lemma ZeroPeriodIsDue(s: Table, i: nat)
    requires Settling(s) && ZeroPeriod(s, i)
    ensures FirstDue(s.timers, Wrap(s.clock), 0) < NUM_TIMERS
  {
    LateIsDue(s, i);
    DeadlineEndsPeriod(Activities(s, i));
    assert Sound(s.timers[i], Activities(s, i), s.clock);
    assert Due(s.timers[i], Wrap(s.clock));
  }

  lemma ZeroPeriodStays(s: Table, i: nat, n: nat) returns (s': Table)
    requires Settling(s) && ZeroPeriod(s, i) && s.posted && n > 0
    ensures Settling(s') && s'.posted && ZeroPeriod(s', i) && Repeat(s, n) == Repeat(s', n - 1)
  {
    s' := Update(s, 0, []);
    PassiveUpdate(s);
    ZeroPeriodIsDue(s, i);
  }

  lemma {:induction false} ZeroPeriodNeverEnds(s: Table, i: nat, n: nat, end: Table)
    requires Settling(s) && ZeroPeriod(s, i) && s.posted && end == Repeat(s, n)
    ensures end.posted
    decreases n
  {
    if n > 0 {
      var s' := ZeroPeriodStays(s, i, n);
      ZeroPeriodNeverEnds(s', i, n - 1, end);
    } else {
      NoMoreRounds(s, 0);
    }
  }

  /** The drain of a posted task ends exactly when no running periodic timer has interval 0. */
  lemma DrainEndsIff(s: Table)
    requires Settling(s) && s.posted
    ensures (exists n: nat :: !Repeat(s, n).posted) <==> PositivePeriods(s)
  {
    if PositivePeriods(s) {
      var n := TotalOwed(s, NUM_TIMERS);
      EndsWithin(s, n, Repeat(s, n + 1));
    } else {
      var i :| 0 <= i < NUM_TIMERS && Running(s, i) && !Activities(s, i).oneshot && Activities(s, i).dt == 0;
      assert ZeroPeriod(s, i);
      forall n: nat ensures Repeat(s, n).posted {
        ZeroPeriodNeverEnds(s, i, n, Repeat(s, n));
      }
    }
  }
}
