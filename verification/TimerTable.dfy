/** The table of 128 runtime timers that share one hardware alarm, as a state
    machine over values. The machine writes a trace of what a client can see;
    what the table must do is stated about that trace alone. */
module TimerTable {
  import opened Words

  const NUM_TIMERS: nat := 128

  datatype RTimer = RTimer(t0: Word, dt: Word, iscreated: bool, isoneshot: bool, isrunning: bool)

  /** The one-shot last requested of the hardware and not stopped since. `at` is the
      instant it stands for on the clock that never wraps. */
  datatype Alarm = Alarm(t0: Word, dt: Word, at: nat)

  /** What a client observes, stamped with the clock that never wraps. */
  datatype Observation =
    | Created(id: nat)
    | Started(id: nat, at: nat, dt: Word, oneshot: bool)
    | Destroyed(id: nat)
    | Fired(id: nat, at: nat)

  datatype Table = Table(
    timers: seq<RTimer>,
    posted: bool,
    alarm: Option<Alarm>,
    clock: nat,
    trace: seq<Observation>)

  // ----- What the trace says about one timer -----

  /** A timer is idle, or was started at `start` and has fired `count` times since. */
  datatype Activity = Idle | Active(start: nat, dt: Word, oneshot: bool, count: nat)

  function Advance(a: Activity, o: Observation, id: nat): Activity {
    match o
    case Created(_) => a
    case Started(j, at, dt, oneshot) => if j == id then Active(at, dt, oneshot, 0) else a
    case Destroyed(j) => if j == id then Idle else a
    case Fired(j, _) =>
      if j != id then a
      else if a.Active? && !a.oneshot then a.(count := a.count + 1)
      else Idle
  }

  function Track(trace: seq<Observation>, id: nat): Activity {
    if trace == [] then Idle
    else Advance(Track(trace[..|trace| - 1], id), trace[|trace| - 1], id)
  }

  /** The timer was handed out to a client and not destroyed since. */
  predicate HandedOut(trace: seq<Observation>, id: nat) {
    if trace == [] then false
    else
      match trace[|trace| - 1]
      case Created(j) => j == id || HandedOut(trace[..|trace| - 1], id)
      case Destroyed(j) => j != id && HandedOut(trace[..|trace| - 1], id)
      case _ => HandedOut(trace[..|trace| - 1], id)
  }

  /** The length of `count` periods; repeated addition keeps the proofs linear. */
  function Periods(count: nat, dt: nat): nat {
    if count == 0 then 0 else Periods(count - 1, dt) + dt
  }

  lemma {:induction false} PeriodsIsProduct(count: nat, dt: nat)
    ensures Periods(count, dt) == count * dt
  {
    if count > 0 { PeriodsIsProduct(count - 1, dt); }
  }

  /** The start of the period that is running: `count` whole periods after the start. */
  function Base(a: Activity): nat
    requires a.Active?
  {
    a.start + Periods(a.count, a.dt)
  }

  function Deadline(a: Activity): nat
    requires a.Active?
  {
    a.start + Periods(a.count + 1, a.dt)
  }

  lemma DeadlineEndsPeriod(a: Activity)
    requires a.Active?
    ensures Deadline(a) == Base(a) + a.dt
    ensures Base(a.(count := a.count + 1)) == Deadline(a)
  {
  }

  /** A firing is allowed when its timer is active and its deadline has passed. */
  predicate Allowed(trace: seq<Observation>, o: Observation) {
    o.Fired? ==>
      var a := Track(trace, o.id);
      a.Active? && Deadline(a) <= o.at
  }

  /** No observation of the trace is a firing before its true deadline. */
  predicate NeverEarly(trace: seq<Observation>) {
    forall j :: 0 <= j < |trace| ==> Allowed(trace[..j], trace[j])
  }

  lemma TrackExtends(trace: seq<Observation>, o: Observation, id: nat)
    ensures Track(trace + [o], id) == Advance(Track(trace, id), o, id)
  {
    assert (trace + [o])[..|trace|] == trace;
  }

  lemma HandedOutExtends(trace: seq<Observation>, o: Observation, id: nat)
    ensures HandedOut(trace + [o], id)
      <==> o == Created(id) || (HandedOut(trace, id) && o != Destroyed(id))
  {
    assert (trace + [o])[..|trace|] == trace;
  }

  lemma NeverEarlyExtends(trace: seq<Observation>, o: Observation)
    requires NeverEarly(trace) && Allowed(trace, o)
    ensures NeverEarly(trace + [o])
  {
    var longer := trace + [o];
    forall j | 0 <= j < |longer| ensures Allowed(longer[..j], longer[j]) {
      assert longer[..j] == if j < |trace| then trace[..j] else trace;
    }
  }

  // ----- The operations -----

  function Elapsed(t: RTimer, now: Word): Word {
    Wrap(now - t.t0)
  }

  predicate Due(t: RTimer, now: Word) {
    t.isrunning && Elapsed(t, now) >= t.dt
  }

  /** `int32_t remaining = dt - elapsed`. */
  function Remaining(t: RTimer, now: Word): int {
    Signed(Wrap(t.dt - Elapsed(t, now)))
  }

  /** The lowest due slot at or after `from`, where the scan of `fireTimers` stops. */
  function FirstDue(ts: seq<RTimer>, now: Word, from: nat): (k: nat)
    requires from <= |ts|
    ensures from <= k <= |ts|
    ensures forall i :: from <= i < k ==> !Due(ts[i], now)
    ensures k < |ts| ==> Due(ts[k], now)
    decreases |ts| - from
  {
    if from == |ts| || Due(ts[from], now) then from else FirstDue(ts, now, from + 1)
  }

  const MAX_INT32: int := 0x7fff_ffff

  /** The running minimum after `n` slots; it is set only by a strictly smaller remainder. */
  function MinRemaining(ts: seq<RTimer>, now: Word, n: nat): (m: int)
    requires n <= |ts|
    ensures m <= MAX_INT32
    ensures forall i :: 0 <= i < n && ts[i].isrunning ==> m <= Remaining(ts[i], now)
    ensures m < MAX_INT32 ==> exists i :: 0 <= i < n && ts[i].isrunning && Remaining(ts[i], now) == m
  {
    if n == 0 then MAX_INT32
    else
      var m := MinRemaining(ts, now, n - 1);
      var t := ts[n - 1];
      if t.isrunning && Remaining(t, now) < m then Remaining(t, now) else m
  }

  lemma MinRemainingNext(ts: seq<RTimer>, now: Word, n: nat)
    requires n < |ts|
    ensures var m := MinRemaining(ts, now, n);
      MinRemaining(ts, now, n + 1)
        == if ts[n].isrunning && Remaining(ts[n], now) < m then Remaining(ts[n], now) else m
  {
  }

  /** What a client, or a handler inside `fired`, may call; `Elapse` lets time pass. */
  datatype Command =
    | Create
    | Destroy(id: Octet)
    | Start(id: Octet, dt: Word, oneshot: bool)
    | Elapse(span: nat)

  /** The start commands index the table unchecked, so their callers must stay in range. */
  predicate InRange(c: Command) {
    c.Start? ==> c.id < NUM_TIMERS
  }

  predicate AllInRange(script: seq<Command>) {
    forall j :: 0 <= j < |script| ==> InRange(script[j])
  }

  function FreeSlot(ts: seq<RTimer>, from: nat): (k: nat)
    requires from <= |ts|
    ensures from <= k <= |ts|
    ensures forall i :: from <= i < k ==> ts[i].iscreated
    ensures k < |ts| ==> !ts[k].iscreated
    decreases |ts| - from
  {
    if from == |ts| || !ts[from].iscreated then from else FreeSlot(ts, from + 1)
  }

  predicate Sized(s: Table) {
    |s.timers| == NUM_TIMERS
  }

  function CreateTimer(s: Table): (s': Table)
    requires Sized(s)
    ensures Sized(s')
  {
    var k := FreeSlot(s.timers, 0);
    if k < NUM_TIMERS then
      s.(timers := s.timers[k := s.timers[k].(iscreated := true)], trace := s.trace + [Created(k)])
    else s
  }

  function DestroyTimer(s: Table, id: Octet): (s': Table)
    requires Sized(s)
    ensures Sized(s')
  {
    if id < NUM_TIMERS && s.timers[id].iscreated then
      s.(timers := s.timers[id := s.timers[id].(iscreated := false, isrunning := false)],
         trace := s.trace + [Destroyed(id)])
    else s
  }

  function StartTimer(s: Table, id: Octet, dt: Word, oneshot: bool): (s': Table)
    requires Sized(s) && id < NUM_TIMERS
    ensures Sized(s')
  {
    if !s.timers[id].iscreated then s
    else
      s.(timers := s.timers[id := RTimer(Wrap(s.clock), dt, true, oneshot, true)],
         posted := true,
         trace := s.trace + [Started(id, s.clock, dt, oneshot)])
  }

  function Apply(s: Table, c: Command): (s': Table)
    requires Sized(s) && InRange(c)
    ensures Sized(s') && s'.clock >= s.clock
  {
    match c
    case Create => CreateTimer(s)
    case Destroy(id) => DestroyTimer(s, id)
    case Start(id, dt, oneshot) => StartTimer(s, id, dt, oneshot)
    case Elapse(span) => s.(clock := s.clock + span)
  }

  function Handle(s: Table, script: seq<Command>): (s': Table)
    requires Sized(s) && AllInRange(script)
    ensures Sized(s') && s'.clock >= s.clock
    decreases |script|
  {
    if script == [] then s else Handle(Apply(s, script[0]), script[1..])
  }

  /** The slot is retired or moved on by exactly one period before `fired` is signalled. */
  function Expire(s: Table, k: nat): (s': Table)
    requires Sized(s) && k < NUM_TIMERS
    ensures Sized(s')
  {
    var t := s.timers[k];
    var t' := if t.isoneshot then t.(isrunning := false) else t.(t0 := Wrap(t.t0 + t.dt));
    s.(timers := s.timers[k := t'], trace := s.trace + [Fired(k, s.clock)])
  }

  /** `fireTimers`: at most one slot expires, its handler runs, and the task is posted. */
  function FireTimers(s: Table, now: Word, script: seq<Command>): (s': Table)
    requires Sized(s) && AllInRange(script)
    ensures Sized(s') && s'.posted && s'.clock >= s.clock
  {
    var k := FirstDue(s.timers, now, 0);
    (if k < NUM_TIMERS then Handle(Expire(s, k), script) else s).(posted := true)
  }

  /** The second half of the task, with the least remainder `m` found at the time `from`. */
  function Served(s: Table, from: nat, m: int, script: seq<Command>): (s': Table)
    requires Sized(s) && AllInRange(script) && m <= MAX_INT32
    ensures Sized(s') && s'.clock >= s.clock
  {
    if m == MAX_INT32 then s
    else if m <= 0 then FireTimers(s, Wrap(from), script)
    else s.(alarm := Some(Alarm(Wrap(from), m, from + m)))
  }

  /** The `updateFromTimer` task. The clock advances by `lag` after `now` is sampled. */
  function Update(s: Table, lag: nat, script: seq<Command>): (s': Table)
    requires Sized(s) && AllInRange(script)
    ensures Sized(s') && s'.clock >= s.clock
  {
    var now := Wrap(s.clock);
    var m := MinRemaining(s.timers, now, NUM_TIMERS);
    Served(s.(posted := false, alarm := None, clock := s.clock + lag), s.clock, m, script)
  }

  lemma UpdateIsServed(s: Table, lag: nat, script: seq<Command>, s1: Table, m: int)
    requires Sized(s) && AllInRange(script)
    requires s1 == s.(posted := false, alarm := None, clock := s.clock + lag)
    requires m == MinRemaining(s.timers, Wrap(s.clock), NUM_TIMERS)
    ensures Update(s, lag, script) == Served(s1, s.clock, m, script)
  {
  }

  // ----- Runs -----

  /** `Hardware` is a firing of the shared alarm: the one armed when `genuine`, else a stale
      or spurious one. `Task` runs the posted task. */
  datatype Event =
    | Client(c: Command)
    | Hardware(genuine: bool, lag: nat, script: seq<Command>)
    | Task(lag: nat, script: seq<Command>)

  predicate Valid(e: Event) {
    match e
    case Client(c) => InRange(c)
    case Hardware(_, _, script) => AllInRange(script)
    case Task(_, script) => AllInRange(script)
  }

  function Step(s: Table, e: Event): (s': Table)
    requires Sized(s) && Valid(e)
    ensures Sized(s') && s'.clock >= s.clock
  {
    match e
    case Client(c) => Apply(s, c)
    case Hardware(genuine, lag, script) =>
      var s1 := s.(clock := s.clock + lag, alarm := if genuine then None else s.alarm);
      FireTimers(s1, Wrap(s.clock), script)
    case Task(lag, script) => if s.posted then Update(s, lag, script) else s
  }

  predicate AllValid(es: seq<Event>) {
    forall j :: 0 <= j < |es| ==> Valid(es[j])
  }

  function Run(s: Table, es: seq<Event>): (s': Table)
    requires Sized(s) && AllValid(es)
    ensures Sized(s')
    decreases |es|
  {
    if es == [] then s else Run(Step(s, es[0]), es[1..])
  }

  function Initial(clock: nat): (s: Table)
    ensures Sized(s)
  {
    Table(seq(NUM_TIMERS, i => RTimer(0, 0, false, false, false)), false, None, clock, [])
  }

  // ----- Safety: the invariant that ties the table to its trace -----

  /** A slot runs exactly when the trace says its timer is active, its `t0` is the wrapped
      start of the current period (so it never drifts), and that start is not after `now`. */
  predicate Sound(t: RTimer, a: Activity, now: nat) {
    && (t.isrunning <==> a.Active?)
    && (a.Active? ==>
         && t.iscreated && t.dt == a.dt && t.isoneshot == a.oneshot
         && t.t0 == Wrap(Base(a)) && Base(a) <= now
         && (a.oneshot ==> a.count == 0))
  }

  predicate SoundAt(s: Table, now: nat) {
    && Sized(s) && now <= s.clock
    && (forall i :: 0 <= i < NUM_TIMERS ==> Sound(s.timers[i], Track(s.trace, i), now))
    && (forall i :: 0 <= i < NUM_TIMERS ==> (s.timers[i].iscreated <==> HandedOut(s.trace, i)))
    && NeverEarly(s.trace)
  }

  predicate Inv(s: Table) {
    SoundAt(s, s.clock)
  }

  lemma InitialInv(clock: nat)
    ensures Inv(Initial(clock))
  {
  }

  /** Wrapped elapsed time never exceeds true elapsed time. */
  lemma ElapsedNeverExceeds(t: RTimer, a: Activity, now: nat)
    requires a.Active? && Sound(t, a, now)
    ensures Elapsed(t, Wrap(now)) <= now - Base(a)
    ensures Elapsed(t, Wrap(now)) == Wrap(now - Base(a))
  {
    WrapDifference(now, Base(a));
  }

  /** One more observation, in the terms of the invariant. */
  lemma Observes(trace: seq<Observation>, o: Observation)
    requires NeverEarly(trace) && Allowed(trace, o)
    ensures NeverEarly(trace + [o])
    ensures forall i :: 0 <= i < NUM_TIMERS ==> Track(trace + [o], i) == Advance(Track(trace, i), o, i)
    ensures forall i :: 0 <= i < NUM_TIMERS ==>
      (HandedOut(trace + [o], i) <==> o == Created(i) || (HandedOut(trace, i) && o != Destroyed(i)))
  {
    NeverEarlyExtends(trace, o);
    forall i | 0 <= i < NUM_TIMERS
      ensures Track(trace + [o], i) == Advance(Track(trace, i), o, i)
      ensures HandedOut(trace + [o], i) <==> o == Created(i) || (HandedOut(trace, i) && o != Destroyed(i))
    {
      TrackExtends(trace, o, i);
      HandedOutExtends(trace, o, i);
    }
  }

  lemma CreateKeepsInv(s: Table)
    requires Inv(s)
    ensures Inv(CreateTimer(s))
  {
    var k := FreeSlot(s.timers, 0);
    if k < NUM_TIMERS { Observes(s.trace, Created(k)); }
  }

  lemma StartKeepsInv(s: Table, id: Octet, dt: Word, oneshot: bool)
    requires Inv(s) && id < NUM_TIMERS
    ensures Inv(StartTimer(s, id, dt, oneshot))
  {
    if s.timers[id].iscreated { Observes(s.trace, Started(id, s.clock, dt, oneshot)); }
  }

  lemma DestroyKeepsInv(s: Table, id: Octet)
    requires Inv(s)
    ensures Inv(DestroyTimer(s, id))
  {
    if id < NUM_TIMERS && s.timers[id].iscreated { Observes(s.trace, Destroyed(id)); }
  }

  /** Every call keeps the invariant, and time passing moves the clock and nothing else. */
  lemma ApplyKeepsInv(s: Table, c: Command)
    requires Inv(s) && InRange(c)
    ensures Inv(Apply(s, c))
    ensures c.Elapse? ==> Apply(s, c) == s.(clock := s.clock + c.span)
  {
    match c
    case Create => CreateKeepsInv(s);
    case Destroy(id) => DestroyKeepsInv(s, id);
    case Start(id, dt, oneshot) => StartKeepsInv(s, id, dt, oneshot);
    case Elapse(span) =>
  }

  lemma {:induction false} HandleKeepsInv(s: Table, script: seq<Command>)
    requires Inv(s) && AllInRange(script)
    ensures Inv(Handle(s, script))
    decreases |script|
  {
    if script != [] {
      ApplyKeepsInv(s, script[0]);
      HandleKeepsInv(Apply(s, script[0]), script[1..]);
    }
  }

  /** A handler makes its calls one after the other. */
  lemma {:induction false} HandleAppends(s: Table, script: seq<Command>, c: Command)
    requires Sized(s) && AllInRange(script) && InRange(c)
    ensures Handle(s, []) == s && Handle(s, script + [c]) == Apply(Handle(s, script), c)
    decreases |script|
  {
    if script == [] {
      assert script + [c] == [c] && Handle(Apply(s, c), []) == Apply(s, c);
    } else {
      HandleAppends(Apply(s, script[0]), script[1..], c);
      assert (script + [c])[1..] == script[1..] + [c];
    }
  }

  lemma DueIsPast(t: RTimer, a: Activity, now: nat)
    requires Sound(t, a, now) && Due(t, Wrap(now))
    ensures a.Active? && Deadline(a) <= now
  {
    ElapsedNeverExceeds(t, a, now);
    DeadlineEndsPeriod(a);
  }

  lemma ExpiredIsSound(t: RTimer, a: Activity, now: nat, later: nat)
    requires Sound(t, a, now) && a.Active? && Deadline(a) <= now <= later
    ensures a.oneshot ==> Sound(t.(isrunning := false), Idle, later)
    ensures !a.oneshot ==> Sound(t.(t0 := Wrap(t.t0 + t.dt)), a.(count := a.count + 1), later)
  {
    DeadlineEndsPeriod(a);
    WrapSum(Base(a), t.dt);
  }

  /** A slot that is due at a sampled instant is truly past its deadline, and expiring it
      moves it to the next period without drift. */
  lemma ExpireKeepsInv(s: Table, now: nat, k: nat)
    requires SoundAt(s, now) && k < NUM_TIMERS && Due(s.timers[k], Wrap(now))
    ensures Inv(Expire(s, k))
    ensures Deadline(Track(s.trace, k)) <= now
  {
    var a, o := Track(s.trace, k), Fired(k, s.clock);
    DueIsPast(s.timers[k], a, now);
    ExpiredIsSound(s.timers[k], a, now, s.clock);
    Observes(s.trace, o);
  }

  lemma FireTimersKeepsInv(s: Table, now: nat, script: seq<Command>)
    requires SoundAt(s, now) && AllInRange(script)
    ensures Inv(FireTimers(s, Wrap(now), script))
  {
    var k := FirstDue(s.timers, Wrap(now), 0);
    if k < NUM_TIMERS {
      ExpireKeepsInv(s, now, k);
      HandleKeepsInv(Expire(s, k), script);
    }
  }

  lemma UpdateKeepsInv(s: Table, lag: nat, script: seq<Command>)
    requires Inv(s) && AllInRange(script)
    ensures Inv(Update(s, lag, script))
  {
    var s1 := s.(posted := false, alarm := None, clock := s.clock + lag);
    FireTimersKeepsInv(s1, s.clock, script);
    UpdateIsServed(s, lag, script, s1, MinRemaining(s.timers, Wrap(s.clock), NUM_TIMERS));
  }

  lemma StepKeepsInv(s: Table, e: Event)
    requires Inv(s) && Valid(e)
    ensures Inv(Step(s, e))
  {
    match e
    case Client(c) => ApplyKeepsInv(s, c);
    case Hardware(genuine, lag, script) =>
      FireTimersKeepsInv(s.(clock := s.clock + lag, alarm := if genuine then None else s.alarm), s.clock, script);
    case Task(lag, script) => UpdateKeepsInv(s, lag, script);
  }

  /** Safety over every run: whatever clients, handlers and the hardware do, and however often
      the visible clock wraps, no firing in the trace precedes its true deadline. */
  lemma {:induction false} RunIsNeverEarly(s: Table, es: seq<Event>)
    requires Inv(s) && AllValid(es)
    ensures Inv(Run(s, es)) && NeverEarly(Run(s, es).trace)
    decreases |es|
  {
    if es != [] {
      StepKeepsInv(s, es[0]);
      RunIsNeverEarly(Step(s, es[0]), es[1..]);
    }
  }

  /** The invariant read off the table: in every state of every run, a running timer is created,
      and after `count` firings its `t0` is (start + count * dt) mod 2^32, however late each firing
      was serviced. */
  lemma PeriodicNeverDrifts(clock: nat, es: seq<Event>, i: nat)
    requires AllValid(es) && i < NUM_TIMERS
    ensures var s := Run(Initial(clock), es);
      var a := Track(s.trace, i);
      && (s.timers[i].isrunning <==> a.Active?)
      && (a.Active? ==> s.timers[i].iscreated && s.timers[i].dt == a.dt
                        && s.timers[i].t0 == (a.start + a.count * a.dt) % 0x1_0000_0000)
  {
    InitialInv(clock);
    RunIsNeverEarly(Initial(clock), es);
    var a := Track(Run(Initial(clock), es).trace, i);
    if a.Active? { PeriodsIsProduct(a.count, a.dt); }
  }

  // ----- Handing out timers -----

  /** In every reachable state `createTimer` hands out the least timer that no client holds, or fails
      exactly when clients hold all 128; and only a timer that a client holds can be started or
      destroyed. */
  lemma CreateHandsOutLeast(clock: nat, es: seq<Event>, k: Octet, dt: Word, oneshot: bool)
    requires AllValid(es)
    ensures var s := Run(Initial(clock), es);
      && (k < 128 && !HandedOut(s.trace, k) && (forall i :: 0 <= i < k ==> HandedOut(s.trace, i)) ==>
           && CreateTimer(s).trace == s.trace + [Created(k)]
           && CreateTimer(s).timers == s.timers[k := s.timers[k].(iscreated := true)])
      && ((forall i :: 0 <= i < 128 ==> HandedOut(s.trace, i)) ==> CreateTimer(s) == s)
      && (k < 128 && !HandedOut(s.trace, k) ==> StartTimer(s, k, dt, oneshot) == s && DestroyTimer(s, k) == s)
      && (k < 128 && HandedOut(s.trace, k) ==>
           && StartTimer(s, k, dt, oneshot).trace == s.trace + [Started(k, s.clock, dt, oneshot)]
           && DestroyTimer(s, k).trace == s.trace + [Destroyed(k)])
  {
    InitialInv(clock);
    RunIsNeverEarly(Initial(clock), es);
  }

  /** `n` creations from start-up. */
  function Creations(clock: nat, n: nat): (s: Table)
    ensures Sized(s)
  {
    if n == 0 then Initial(clock) else CreateTimer(Creations(clock, n - 1))
  }

  lemma NextFree(ts: seq<RTimer>, m: nat)
    requires |ts| == NUM_TIMERS && m <= NUM_TIMERS
    requires forall i :: 0 <= i < NUM_TIMERS ==> (ts[i].iscreated <==> i < m)
    ensures FreeSlot(ts, 0) == m
  {
    if m < NUM_TIMERS { assert !ts[m].iscreated; }
  }

  /** The first 128 creations hand out the timers 0 to 127 in that order, and all later ones fail. */
  lemma {:induction false} CreatedInOrder(clock: nat, n: nat)
    ensures |Creations(clock, n).trace| == if n <= 128 then n else 128
    ensures forall i :: 0 <= i < |Creations(clock, n).trace| ==> Creations(clock, n).trace[i] == Created(i)
    ensures forall i :: 0 <= i < 128 ==> Creations(clock, n).timers[i] == RTimer(0, 0, i < n, false, false)
  {
    if n > 0 {
      CreatedInOrder(clock, n - 1);
      NextFree(Creations(clock, n - 1).timers, if n <= 128 then n - 1 else 128);
    }
  }

  lemma {:induction false} OneShotsFireOnce(trace: seq<Observation>, id: nat)
    ensures Track(trace, id).Active? && Track(trace, id).oneshot ==> Track(trace, id).count == 0
    decreases |trace|
  {
    if trace != [] { OneShotsFireOnce(trace[..|trace| - 1], id); }
  }

  /** The guarantee in the client's terms: whenever `fired` is signalled, its timer had been started
      and not destroyed since; it is the (k+1)-th signal since that start, no earlier than
      start + (k+1) * dt on the clock that never wraps, and k is 0 for a one-shot. */
  lemma FiredOnTime(clock: nat, es: seq<Event>, j: nat)
    requires AllValid(es) && j < |Run(Initial(clock), es).trace| && Run(Initial(clock), es).trace[j].Fired?
    ensures var trace := Run(Initial(clock), es).trace;
      var a := Track(trace[..j], trace[j].id);
      && a.Active? && trace[j].at >= a.start + (a.count + 1) * a.dt
      && (a.oneshot ==> a.count == 0)
  {
    InitialInv(clock);
    RunIsNeverEarly(Initial(clock), es);
    var trace := Run(Initial(clock), es).trace;
    assert Allowed(trace[..j], trace[j]);
    var a := Track(trace[..j], trace[j].id);
    PeriodsIsProduct(a.count + 1, a.dt);
    OneShotsFireOnce(trace[..j], trace[j].id);
  }
}
