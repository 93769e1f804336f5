/** No running timer is forgotten, and how far the signed arithmetic of the task can be trusted. */
module TimerLiveness {
  import opened Words
  import opened TimerTable

  /** The longest interval the task can arm from its start: one less than the strict
      comparison with `MAX_INT32` rejects. */
  const MAX_DT: int := 0x7fff_fffe

  const MAX_LATENESS: int := 0x8000_0000

  function Activities(s: Table, i: nat): Activity {
    Track(s.trace, i)
  }

  predicate Running(s: Table, i: nat) {
    i < NUM_TIMERS && Activities(s, i).Active?
  }

  predicate SomeRunning(s: Table) {
    exists i :: 0 <= i < NUM_TIMERS && Running(s, i)
  }

  /** Deadline minus clock: negative once the timer is late. */
  function TimeToDeadline(s: Table, i: nat): int
    requires Running(s, i)
  {
    Deadline(Activities(s, i)) - s.clock
  }

  predicate ShortIntervals(s: Table, limit: int) {
    forall i :: 0 <= i < NUM_TIMERS && Running(s, i) ==> Activities(s, i).dt <= limit
  }

  /** No timer is further behind than 32 signed bits can express. */
  predicate Punctual(s: Table) {
    forall i :: 0 <= i < NUM_TIMERS && Running(s, i) ==> -MAX_LATENESS <= TimeToDeadline(s, i)
  }

  predicate AlarmCovers(s: Table) {
    && s.alarm.Some?
    && forall i :: 0 <= i < NUM_TIMERS && Running(s, i) ==> s.alarm.value.at <= Deadline(Activities(s, i))
  }

  /** The next service of the table is certain: the task is posted, nothing runs, or the
      armed alarm is due no later than any running timer. */
  predicate Covered(s: Table) {
    s.posted || !SomeRunning(s) || AlarmCovers(s)
  }

  // ----- The arithmetic -----

  /** The signed test of the task and the unsigned test of `fireTimers` agree on exactly
      the differences that fit 32 signed bits. */
  lemma SignedTestAgrees(dt: Word, elapsed: Word)
    ensures (Signed(Wrap(dt - elapsed)) <= 0 <==> elapsed >= dt)
       <==> -0x8000_0000 <= dt - elapsed <= 0x7fff_ffff
  {
  }

  /** On a punctual table the task computes the true remaining time. */
  lemma RemainingIsExact(s: Table, i: nat)
    requires Inv(s) && Running(s, i)
    ensures Remaining(s.timers[i], Wrap(s.clock)) == TimeToDeadline(s, i)
       <==> -0x8000_0000 <= TimeToDeadline(s, i) <= 0x7fff_ffff
  {
    var t, a := s.timers[i], Activities(s, i);
    ElapsedNeverExceeds(t, a, s.clock);
    DeadlineEndsPeriod(a);
    WrapDifference(a.dt, s.clock - Base(a));
    assert Wrap(t.dt - Elapsed(t, Wrap(s.clock))) == Wrap(TimeToDeadline(s, i));
    SignedIsExact(TimeToDeadline(s, i));
  }

  /** A timer whose unwrapped deadline has passed within the lateness bound is seen as due. */
  lemma LateIsDue(s: Table, i: nat)
    requires Inv(s) && Running(s, i) && Activities(s, i).dt <= MAX_INT32
    requires -MAX_LATENESS <= TimeToDeadline(s, i)
    ensures Due(s.timers[i], Wrap(s.clock)) <==> TimeToDeadline(s, i) <= 0
  {
    var t, a := s.timers[i], Activities(s, i);
    var elapsed := s.clock - Base(a);
    ElapsedNeverExceeds(t, a, s.clock);
    DeadlineEndsPeriod(a);
    assert TimeToDeadline(s, i) == a.dt - elapsed;
    assert Wrap(elapsed) == elapsed by { WrapIsIdentity(elapsed); }
  }

  lemma WrapIsIdentity(x: int)
    requires 0 <= x < 0x1_0000_0000
    ensures Wrap(x) == x
  {
  }

  /** `getTimeLeft`. */
  function GetTimeLeft(s: Table, id: Octet): Option<Word>
    requires Sized(s)
  {
    if id >= NUM_TIMERS || !s.timers[id].isrunning then None
    else
      var remaining := Remaining(s.timers[id], Wrap(s.clock));
      if remaining < 0 then Some(0) else Some(remaining)
  }

  function OrZero(x: int): nat {
    if x < 0 then 0 else x
  }

  /** `getTimeLeft` succeeds on exactly the running timers. However late one is, it reports the true
      remaining time read as 32 signed bits, or 0 for a negative one; that is right, with 0 for a late
      timer, exactly when a timer on time has at most 2^31-1 left and a late one reads as late. */
  lemma TimeLeftIsExact(s: Table, id: Octet)
    requires Inv(s)
    ensures GetTimeLeft(s, id).Some? <==> Running(s, id)
    ensures Running(s, id) ==>
      var left := TimeToDeadline(s, id);
      && GetTimeLeft(s, id) == Some(OrZero(Signed(Wrap(left))))
      && (GetTimeLeft(s, id) == Some(OrZero(left)) <==>
            if left >= 0 then left <= MAX_INT32 else Signed(Wrap(left)) <= 0)
      && (-0x8000_0000 <= left <= MAX_INT32 ==> GetTimeLeft(s, id) == Some(OrZero(left)))
  {
    if Running(s, id) {
      var t, a := s.timers[id], Activities(s, id);
      ElapsedNeverExceeds(t, a, s.clock);
      DeadlineEndsPeriod(a);
      WrapDifference(a.dt, s.clock - Base(a));
      assert TimeToDeadline(s, id) == a.dt - (s.clock - Base(a)) <= a.dt;
      SignedIsExact(TimeToDeadline(s, id));
      ReadAsSigned(TimeToDeadline(s, id));
    }
  }

  lemma ReadAsSigned(x: int)
    requires x < 0x1_0000_0000
    ensures OrZero(Signed(Wrap(x))) == OrZero(x) <==> if x >= 0 then x <= MAX_INT32 else Signed(Wrap(x)) <= 0
  {
    if x >= 0 { WrapIsIdentity(x); }
  }

  // ----- The task covers every running timer -----

  /** Once nothing is due, the task arms the alarm for the earliest deadline, or leaves the
      table idle; if something is due it expires exactly one slot, so it never spins. */
  lemma UpdateCovers(s: Table, lag: nat, script: seq<Command>)
    requires Inv(s) && AllInRange(script) && Punctual(s) && ShortIntervals(s, MAX_DT)
    ensures var s' := Update(s, lag, script);
      var k := FirstDue(s.timers, Wrap(s.clock), 0);
      && Covered(s')
      && (s'.posted <==> k < NUM_TIMERS)
      && (!s'.posted && SomeRunning(s) ==>
           && s'.alarm.Some?
           && exists i :: 0 <= i < NUM_TIMERS && Running(s, i) && s'.alarm.value.at == Deadline(Activities(s, i)))
  {
    var now := Wrap(s.clock);
    var m := MinRemaining(s.timers, now, NUM_TIMERS);
    var s' := Update(s, lag, script);
    forall i | 0 <= i < NUM_TIMERS && Running(s, i)
      ensures Remaining(s.timers[i], now) == TimeToDeadline(s, i) < MAX_INT32
      ensures Due(s.timers[i], now) <==> TimeToDeadline(s, i) <= 0
    {
      DeadlineEndsPeriod(Activities(s, i));
      RemainingIsExact(s, i);
      LateIsDue(s, i);
    }
    if m == MAX_INT32 {
      assert !SomeRunning(s);
    } else {
      var i :| 0 <= i < NUM_TIMERS && s.timers[i].isrunning && Remaining(s.timers[i], now) == m;
      assert Running(s, i);
      if m > 0 {
        assert s'.trace == s.trace;
        assert forall j :: 0 <= j < NUM_TIMERS && Running(s', j) ==> Running(s, j);
        assert s'.alarm.value.at == Deadline(Activities(s, i));
      }
    }
  }

  /** Fewer running timers, and the same alarm and task. */
  lemma FewerStayCovered(s: Table, s': Table)
    requires Covered(s) && s'.alarm == s.alarm && s'.posted == s.posted
    requires forall i :: 0 <= i < NUM_TIMERS && Running(s', i) ==>
      Running(s, i) && Activities(s', i) == Activities(s, i)
    ensures Covered(s')
  {
  }

  lemma DestroyKeepsCovered(s: Table, id: Octet)
    requires Sized(s) && Covered(s)
    ensures Covered(DestroyTimer(s, id))
  {
    var s' := DestroyTimer(s, id);
    if s'.trace != s.trace {
      forall i | 0 <= i < NUM_TIMERS ensures Activities(s', i) == if i == id then Idle else Activities(s, i) {
        TrackExtends(s.trace, Destroyed(id), i);
      }
    }
    FewerStayCovered(s, s');
  }

  lemma CreateKeepsCovered(s: Table)
    requires Sized(s) && Covered(s)
    ensures Covered(CreateTimer(s))
  {
    var s' := CreateTimer(s);
    if s'.trace != s.trace {
      var o := s'.trace[|s.trace|];
      forall i | 0 <= i < NUM_TIMERS ensures Activities(s', i) == Activities(s, i) {
        TrackExtends(s.trace, o, i);
      }
    }
    FewerStayCovered(s, s');
  }

  lemma ApplyKeepsCovered(s: Table, c: Command)
    requires Inv(s) && Covered(s) && InRange(c)
    ensures Covered(Apply(s, c))
  {
    match c
    case Create => CreateKeepsCovered(s);
    case Destroy(id) => DestroyKeepsCovered(s, id);
    case Start(id, dt, oneshot) =>
      if !Apply(s, c).posted { FewerStayCovered(s, Apply(s, c)); }
    case Elapse(_) => FewerStayCovered(s, Apply(s, c));
  }

  // ----- Client intervals bound the intervals of the table -----

  predicate ShortScript(script: seq<Command>) {
    forall j :: 0 <= j < |script| && script[j].Start? ==> script[j].dt <= MAX_DT
  }

  predicate ShortEvent(e: Event) {
    match e
    case Client(c) => c.Start? ==> c.dt <= MAX_DT
    case Hardware(_, _, script) => ShortScript(script)
    case Task(_, script) => ShortScript(script)
  }

  predicate ShortEvents(es: seq<Event>) {
    forall j :: 0 <= j < |es| ==> ShortEvent(es[j])
  }

  lemma ObserveKeepsShort(s: Table, s': Table, o: Observation)
    requires s'.trace == s.trace + [o] && ShortIntervals(s, MAX_DT)
    requires o.Started? ==> o.dt <= MAX_DT
    ensures ShortIntervals(s', MAX_DT)
  {
    forall i | 0 <= i < NUM_TIMERS ensures Activities(s', i) == Advance(Activities(s, i), o, i) {
      TrackExtends(s.trace, o, i);
    }
    forall i | 0 <= i < NUM_TIMERS && Running(s', i) ensures Activities(s', i).dt <= MAX_DT {
      if Activities(s, i).Active? { assert Running(s, i); }
    }
  }

  lemma ApplyKeepsShort(s: Table, c: Command)
    requires Sized(s) && InRange(c) && ShortIntervals(s, MAX_DT) && (c.Start? ==> c.dt <= MAX_DT)
    ensures ShortIntervals(Apply(s, c), MAX_DT)
  {
    var s' := Apply(s, c);
    if s'.trace != s.trace {
      ObserveKeepsShort(s, s', s'.trace[|s.trace|]);
    } else {
      assert forall i :: 0 <= i < NUM_TIMERS && Running(s', i) ==> Running(s, i);
    }
  }

  lemma {:induction false} HandleKeepsShort(s: Table, script: seq<Command>)
    requires Sized(s) && AllInRange(script) && ShortScript(script) && ShortIntervals(s, MAX_DT)
    ensures ShortIntervals(Handle(s, script), MAX_DT)
    decreases |script|
  {
    if script != [] {
      ApplyKeepsShort(s, script[0]);
      HandleKeepsShort(Apply(s, script[0]), script[1..]);
    }
  }

  lemma FireTimersKeepsShort(s: Table, now: Word, script: seq<Command>)
    requires Sized(s) && AllInRange(script) && ShortScript(script) && ShortIntervals(s, MAX_DT)
    ensures ShortIntervals(FireTimers(s, now, script), MAX_DT)
  {
    var k := FirstDue(s.timers, now, 0);
    var s' := FireTimers(s, now, script);
    if k < NUM_TIMERS {
      ObserveKeepsShort(s, Expire(s, k), Fired(k, s.clock));
      HandleKeepsShort(Expire(s, k), script);
      assert s'.trace == Handle(Expire(s, k), script).trace;
      SameTraceKeepsShort(Handle(Expire(s, k), script), s');
    } else {
      SameTraceKeepsShort(s, s');
    }
  }

  lemma SameTraceKeepsShort(s: Table, s': Table)
    requires s'.trace == s.trace && ShortIntervals(s, MAX_DT)
    ensures ShortIntervals(s', MAX_DT)
  {
    assert forall i :: 0 <= i < NUM_TIMERS && Running(s', i) ==> Running(s, i);
  }

  lemma StepKeepsShort(s: Table, e: Event)
    requires Sized(s) && Valid(e) && ShortEvent(e) && ShortIntervals(s, MAX_DT)
    ensures ShortIntervals(Step(s, e), MAX_DT)
  {
    match e
    case Client(c) => ApplyKeepsShort(s, c);
    case Hardware(genuine, lag, script) =>
      var s1 := s.(clock := s.clock + lag, alarm := if genuine then None else s.alarm);
      SameTraceKeepsShort(s, s1);
      FireTimersKeepsShort(s1, Wrap(s.clock), script);
    case Task(lag, script) =>
      var s1 := s.(posted := false, alarm := None, clock := s.clock + lag);
      SameTraceKeepsShort(s, s1);
      FireTimersKeepsShort(s1, Wrap(s.clock), script);
      if Step(s, e).trace == s.trace {
        SameTraceKeepsShort(s, Step(s, e));
      }
  }

  // ----- Runs -----

  lemma StepKeepsCovered(s: Table, e: Event)
    requires Inv(s) && Covered(s) && Valid(e) && ShortIntervals(s, MAX_DT)
    requires e.Task? && s.posted ==> Punctual(s)
    ensures Covered(Step(s, e))
  {
    match e
    case Client(c) => ApplyKeepsCovered(s, c);
    case Hardware(_, _, _) =>
    case Task(lag, script) => if s.posted { UpdateCovers(s, lag, script); }
  }

  /** Whenever the task runs, no timer is more than 2^31 behind. */
  predicate PunctualRun(s: Table, es: seq<Event>)
    requires Sized(s) && AllValid(es)
    decreases |es|
  {
    if es == [] then true
    else (es[0].Task? && s.posted ==> Punctual(s)) && PunctualRun(Step(s, es[0]), es[1..])
  }

  /** Liveness over every punctual run of clients that ask for at most `MAX_DT`: in every state
      reached, no running timer is forgotten. */
  lemma {:induction false} RunNeverForgets(s: Table, es: seq<Event>)
    requires Inv(s) && Covered(s) && ShortIntervals(s, MAX_DT)
    requires AllValid(es) && ShortEvents(es) && PunctualRun(s, es)
    ensures Covered(Run(s, es))
    decreases |es|
  {
    if es != [] {
      StepKeepsInv(s, es[0]);
      StepKeepsShort(s, es[0]);
      StepKeepsCovered(s, es[0]);
      RunNeverForgets(Step(s, es[0]), es[1..]);
    }
  }

  /** The interval bound is sharp: on a punctual table whose intervals fit `int32_t`, the task
      forgets its timers exactly when timers run and each of them has all of `MAX_INT32` left. */
  lemma ForgottenIff(s: Table, lag: nat)
    requires Inv(s) && Punctual(s) && ShortIntervals(s, MAX_INT32)
    ensures !Covered(Update(s, lag, [])) <==>
      SomeRunning(s) && forall i :: 0 <= i < NUM_TIMERS && Running(s, i) ==> TimeToDeadline(s, i) == MAX_INT32
  {
    var now := Wrap(s.clock);
    var m := MinRemaining(s.timers, now, NUM_TIMERS);
    var s' := Update(s, lag, []);
    forall i | 0 <= i < NUM_TIMERS && Running(s, i)
      ensures Remaining(s.timers[i], now) == TimeToDeadline(s, i)
    {
      DeadlineEndsPeriod(Activities(s, i));
      RemainingIsExact(s, i);
    }
    if m == MAX_INT32 {
      assert forall i :: 0 <= i < NUM_TIMERS ==> Running(s', i) == Running(s, i);
      if SomeRunning(s) {
        var i :| 0 <= i < NUM_TIMERS && Running(s, i);
        assert Running(s', i);
      }
    } else {
      var i :| 0 <= i < NUM_TIMERS && s.timers[i].isrunning && Remaining(s.timers[i], now) == m;
      assert Running(s, i);
      if m > 0 {
        assert forall j :: 0 <= j < NUM_TIMERS && Running(s', j) ==> Running(s, j);
      }
    }
  }

  /** A table whose first slot has just been created and started for `MAX_INT32`. */
  lemma LongestStarted(clock: nat) returns (s: Table)
    ensures s == Apply(Apply(Initial(clock), Create), Start(0, 0x7fff_ffff, true))
    ensures Inv(s) && s.clock == clock && s.posted
    ensures forall i :: 0 <= i < NUM_TIMERS ==>
      Activities(s, i) == if i == 0 then Active(clock, 0x7fff_ffff, true, 0) else Idle
  {
    var s0 := Initial(clock);
    InitialInv(clock);
    var s1 := Step(s0, Client(Create));
    StepKeepsInv(s0, Client(Create));
    s := Step(s1, Client(Start(0, 0x7fff_ffff, true)));
    StepKeepsInv(s1, Client(Start(0, 0x7fff_ffff, true)));
    assert FreeSlot(s0.timers, 0) == 0;
    var o := Started(0, clock, 0x7fff_ffff, true);
    assert s1.trace == [] + [Created(0)] && s.trace == s1.trace + [o];
    forall i | 0 <= i < NUM_TIMERS
      ensures Activities(s, i) == if i == 0 then Active(clock, 0x7fff_ffff, true, 0) else Idle
    {
      TrackExtends([], Created(0), i);
      TrackExtends(s1.trace, o, i);
    }
  }

  lemma RunOfThree(s: Table, a: Event, b: Event, c: Event)
    requires Sized(s) && Valid(a) && Valid(b) && Valid(c)
    ensures AllValid([a, b, c]) && Run(s, [a, b, c]) == Step(Step(Step(s, a), b), c)
  {
    assert [a, b, c][1..] == [b, c] && [b, c][1..] == [c];
    assert Run(Step(Step(s, a), b), [c]) == Run(Step(Step(Step(s, a), b), c), []);
  }

  lemma FreshIsForgotten(s: Table)
    requires Inv(s) && s.posted
    requires forall i :: 0 <= i < NUM_TIMERS ==>
      Activities(s, i) == if i == 0 then Active(s.clock, 0x7fff_ffff, true, 0) else Idle
    ensures !Covered(Step(s, Task(0, [])))
  {
    assert Running(s, 0);
    assert Periods(1, 0x7fff_ffff) == Periods(0, 0x7fff_ffff) + 0x7fff_ffff;
    assert TimeToDeadline(s, 0) == MAX_INT32;
    ForgottenIff(s, 0);
  }

  /** A client that starts one timer for `MAX_INT32` milliseconds loses it: the task leaves it
      running with no alarm and nothing posted. */
  lemma LongestIntervalIsForgotten(clock: nat)
    ensures var es := [Client(Create), Client(Start(0, 0x7fff_ffff, true)), Task(0, [])];
      AllValid(es) && !Covered(Run(Initial(clock), es))
  {
    RunOfThree(Initial(clock), Client(Create), Client(Start(0, 0x7fff_ffff, true)), Task(0, []));
    var s := LongestStarted(clock);
    FreshIsForgotten(s);
  }

  /** A slot that the task's signed test takes for due and the unsigned one of `fireTimers` does not. */
  predicate SeemsDue(s: Table, i: nat)
    requires Sized(s)
  {
    && i < NUM_TIMERS && s.timers[i].isrunning
    && s.timers[i].dt - Elapsed(s.timers[i], Wrap(s.clock)) >= 0x8000_0000
  }

  predicate SomeSeemsDue(s: Table)
    requires Sized(s)
  {
    exists i :: 0 <= i < NUM_TIMERS && SeemsDue(s, i)
  }

  /** The task re-posts itself without signalling anything exactly when nothing is due and some
      running timer has 2^31 or more left. */
  lemma SpinsIff(s: Table, lag: nat, script: seq<Command>)
    requires Sized(s) && AllInRange(script)
    ensures Update(s, lag, script).posted && Update(s, lag, script).trace == s.trace
      <==> FirstDue(s.timers, Wrap(s.clock), 0) == NUM_TIMERS && SomeSeemsDue(s)
  {
    var now := Wrap(s.clock);
    if FirstDue(s.timers, now, 0) < NUM_TIMERS {
      FiringShows(s.(posted := false, alarm := None, clock := s.clock + lag), now, script);
    } else {
      SeemsLateIff(s);
    }
  }

  /** With nothing due, the least remainder is not positive exactly when some timer seems due. */
  lemma SeemsLateIff(s: Table)
    requires Sized(s) && FirstDue(s.timers, Wrap(s.clock), 0) == NUM_TIMERS
    ensures MinRemaining(s.timers, Wrap(s.clock), NUM_TIMERS) <= 0 <==> SomeSeemsDue(s)
  {
    var now := Wrap(s.clock);
    forall i | 0 <= i < NUM_TIMERS && s.timers[i].isrunning
      ensures Remaining(s.timers[i], now) <= 0 <==> SeemsDue(s, i)
    {
      SignedTestAgrees(s.timers[i].dt, Elapsed(s.timers[i], now));
    }
    var m := MinRemaining(s.timers, now, NUM_TIMERS);
    if m <= 0 {
      var i :| 0 <= i < NUM_TIMERS && s.timers[i].isrunning && Remaining(s.timers[i], now) == m;
      assert SeemsDue(s, i);
    }
  }

  /** A firing is on the trace for good. */
  lemma FiringShows(s: Table, now: Word, script: seq<Command>)
    requires Sized(s) && AllInRange(script) && FirstDue(s.timers, now, 0) < NUM_TIMERS
    ensures |FireTimers(s, now, script).trace| > |s.trace|
  {
    HandleExtendsTrace(Expire(s, FirstDue(s.timers, now, 0)), script);
  }

  lemma {:induction false} HandleExtendsTrace(s: Table, script: seq<Command>)
    requires Sized(s) && AllInRange(script)
    ensures |Handle(s, script).trace| >= |s.trace|
    decreases |script|
  {
    if script != [] { HandleExtendsTrace(Apply(s, script[0]), script[1..]); }
  }

  /** So a timer just started for 2^31 or more makes the task spin until it looks farther away, unless
      another one is due. */
  lemma TooLongIntervalSpins(s: Table, i: nat, lag: nat, script: seq<Command>)
    requires Inv(s) && AllInRange(script) && Running(s, i)
    requires Activities(s, i).dt >= 0x8000_0000 && Base(Activities(s, i)) == s.clock
    requires FirstDue(s.timers, Wrap(s.clock), 0) == NUM_TIMERS
    ensures Update(s, lag, script).posted && Update(s, lag, script).trace == s.trace
  {
    ElapsedNeverExceeds(s.timers[i], Activities(s, i), s.clock);
    assert SeemsDue(s, i);
    SpinsIff(s, lag, script);
  }
}
