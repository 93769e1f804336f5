/** The runtime timers on top of the Java timer service: one event thread that dispatches queued
    firings and drains tasks, and an executor thread that queues firings when they are due. */
module TimerSystem {
  import opened Words
  import T = TimerTable
  import L = TimerLiveness
  import A = AlarmSchedule

  /** The service's timer id of the shared alarm. */
  const ALARM: Byte := 0

  datatype System = System(table: T.Table, service: A.Service)

  /** `Executor` and `Dispatch` may come in any order, so an event queued before its task was
      cancelled reaches the table as a stale firing. Other components use the other timers. */
  datatype Event =
    | Client(c: T.Command)
    | Executor(j: nat)
    | Dispatch(lag: nat, script: seq<T.Command>)
    | Task(lag: nat, script: seq<T.Command>)
    | OtherStart(tid: Byte, t0: Word, dt: Word, oneshot: bool)
    | OtherStop(tid: Byte)

  predicate Valid(e: Event) {
    match e
    case Client(c) => T.InRange(c)
    case Executor(_) => true
    case Dispatch(_, script) => T.AllInRange(script)
    case Task(_, script) => T.AllInRange(script)
    case OtherStart(tid, _, dt, oneshot) => tid != ALARM && (oneshot || dt > 0)
    case OtherStop(tid) => tid != ALARM
  }

  predicate HasPending(s: A.Service, tid: Byte) {
    exists j :: 0 <= j < |s.tasks| && A.IsPending(s, j, tid)
  }

  predicate Sized(s: System) {
    T.Sized(s.table) && A.Linked(s.service)
  }

  /** The event of the table that a system event amounts to, if any. */
  function TableEvent(s: System, e: Event): Option<T.Event>
    requires Sized(s)
  {
    match e
    case Client(c) => Some(T.Client(c))
    case Dispatch(lag, script) =>
      if s.service.queue != [] && s.service.queue[0] == ALARM
      then Some(T.Hardware(!HasPending(s.service, ALARM), lag, script))
      else None
    case Task(lag, script) => Some(T.Task(lag, script))
    case _ => None
  }

  function StepTable(s: System, e: Event): (t: T.Table)
    requires Sized(s) && Valid(e)
    ensures T.Sized(t)
  {
    var te := TableEvent(s, e);
    if te.Some? then T.Step(s.table, te.value) else s.table
  }

  /** What a step asks of the service, before time is accounted for. The task first stops the
      alarm and then may start it again. */
  function StepService(s: System, e: Event, t: T.Table): (v: A.Service)
    requires Sized(s)
    ensures A.Linked(v) && v.clock == t.clock
  {
    match e
    case Executor(j) =>
      (if A.CanRun(s.service, j) then A.RunTask(s.service, j) else s.service).(clock := t.clock)
    case Dispatch(_, _) =>
      (if s.service.queue != [] then A.Dispatch(s.service) else s.service).(clock := t.clock)
    case Task(_, _) =>
      if !s.table.posted then s.service.(clock := t.clock)
      else
        var v := A.Stop(s.service, ALARM).(clock := t.clock);
        if t.alarm.Some? then A.Start(v, ALARM, t.alarm.value.t0, t.alarm.value.dt, true) else v
    case OtherStart(tid, t0, dt, oneshot) => A.Start(s.service.(clock := t.clock), tid, t0, dt, oneshot)
    case OtherStop(tid) => A.Stop(s.service, tid).(clock := t.clock)
    case Client(_) => s.service.(clock := t.clock)
  }

  function Step(s: System, e: Event): (s': System)
    requires Sized(s) && Valid(e)
    ensures Sized(s')
  {
    var t := StepTable(s, e);
    System(t, StepService(s, e, t))
  }

  predicate AllValid(es: seq<Event>) {
    forall j :: 0 <= j < |es| ==> Valid(es[j])
  }

  function Run(s: System, es: seq<Event>): (s': System)
    requires Sized(s) && AllValid(es)
    ensures Sized(s')
    decreases |es|
  {
    if es == [] then s else Run(Step(s, es[0]), es[1..])
  }

  function Initial(): (s: System)
    ensures Sized(s)
  {
    System(T.Initial(0), A.Service([], [], [], 0))
  }

  // ----- The coupling of table and service -----

  /** A pending alarm task is due by the instant the table armed it for, or by now. */
  predicate DueInTime(v: A.Service, j: nat, at: nat) {
    A.IsPending(v, j, ALARM) ==> v.tasks[j].due <= at || v.tasks[j].due <= v.clock
  }

  /** What the table believes armed is scheduled in time or already queued. */
  predicate AlarmBacked(s: System) {
    s.table.alarm.Some? ==>
      && (ALARM in s.service.queue || HasPending(s.service, ALARM))
      && forall j :: 0 <= j < |s.service.tasks| ==> DueInTime(s.service, j, s.table.alarm.value.at)
  }

  predicate AlarmIsOneShot(v: A.Service) {
    forall j :: 0 <= j < |v.tasks| && v.tasks[j].tid == ALARM ==> v.tasks[j].period == 0
  }

  predicate Inv(s: System) {
    && T.Inv(s.table) && A.Inv(s.service) && AlarmIsOneShot(s.service)
    && s.table.clock == s.service.clock
    && AlarmBacked(s)
  }

  lemma InitialInv()
    ensures Inv(Initial()) && L.Covered(Initial().table)
  {
    T.InitialInv(0);
    assert forall i :: 0 <= i < T.NUM_TIMERS ==> !L.Running(Initial().table, i);
  }

  /** The alarm the task arms is scheduled under a bound no later than it asked for. */
  lemma ArmingIsBacked(s: System, lag: nat, script: seq<T.Command>)
    requires Inv(s) && s.table.posted && T.AllInRange(script)
    ensures var s' := Step(s, Task(lag, script));
      A.Inv(s'.service) && s'.service.clock == s'.table.clock && AlarmBacked(s')
  {
    var e := Task(lag, script);
    var t := StepTable(s, e);
    var v := A.Stop(s.service, ALARM).(clock := t.clock);
    A.StopKeepsInv(s.service, ALARM);
    assert A.Inv(v);
    if t.alarm.Some? {
      var alarm := t.alarm.value;
      ArmsFromNow(s.table, lag, script);
      A.StartKeepsInv(v, ALARM, alarm.t0, alarm.dt, true);
      var v' := A.Start(v, ALARM, alarm.t0, alarm.dt, true);
      assert A.IsPending(v', |v.tasks|, ALARM);
      A.DueTimeIsExact(s.table.clock, alarm.dt, t.clock);
      forall j | 0 <= j < |v'.tasks| ensures DueInTime(v', j, alarm.at) {
        if A.IsPending(v', j, ALARM) { A.OnePendingPerTimer(v', j, |v.tasks|, ALARM); }
      }
    }
  }

  /** An alarm left by the task counts from the instant the task sampled. */
  lemma ArmsFromNow(t: T.Table, lag: nat, script: seq<T.Command>)
    requires T.Inv(t) && T.AllInRange(script) && T.Update(t, lag, script).alarm.Some?
    ensures var alarm := T.Update(t, lag, script).alarm.value;
      alarm.t0 == Wrap(t.clock) && alarm.at == t.clock + alarm.dt
  {
    var now := Wrap(t.clock);
    var k := T.FirstDue(t.timers, now, 0);
    if k < T.NUM_TIMERS {
      var t1 := t.(posted := false, alarm := None, clock := t.clock + lag);
      HandlersNeverArm(T.Expire(t1, k), script);
    }
  }

  lemma {:induction false} HandlersNeverArm(t: T.Table, script: seq<T.Command>)
    requires T.Sized(t) && T.AllInRange(script)
    ensures T.Handle(t, script).alarm == t.alarm
    decreases |script|
  {
    if script != [] { HandlersNeverArm(T.Apply(t, script[0]), script[1..]); }
  }

  lemma FiringsNeverArm(t: T.Table, now: Word, script: seq<T.Command>)
    requires T.Sized(t) && T.AllInRange(script)
    ensures T.FireTimers(t, now, script).alarm == t.alarm
  {
    var k := T.FirstDue(t.timers, now, 0);
    if k < T.NUM_TIMERS { HandlersNeverArm(T.Expire(t, k), script); }
  }

  lemma ServiceKeepsInv(s: System, e: Event)
    requires Inv(s) && Valid(e) && !e.Task?
    ensures A.Inv(Step(s, e).service)
  {
    AnyTableKeepsInv(s, e, StepTable(s, e));
  }

  lemma AnyTableKeepsInv(s: System, e: Event, t: T.Table)
    requires Sized(s) && A.Inv(s.service) && !e.Task?
    ensures A.Inv(StepService(s, e, t))
  {
    match e
    case Executor(j) => if A.CanRun(s.service, j) { A.RunTaskKeepsInv(s.service, j); }
    case Dispatch(_, _) => if s.service.queue != [] { A.DispatchKeepsInv(s.service); }
    case OtherStart(tid, t0, dt, oneshot) =>
      A.StartKeepsInv(s.service.(clock := t.clock), tid, t0, dt, oneshot);
    case OtherStop(tid) => A.StopKeepsInv(s.service, tid);
    case Client(_) =>
  }

  /** An alarm task scheduled before a step of another component is the same after it. */
  lemma OthersKeepAlarm(s: System, e: Event, j: nat)
    requires Inv(s) && Valid(e) && (e.OtherStart? || e.OtherStop?)
    ensures A.IsPending(Step(s, e).service, j, ALARM) <==> A.IsPending(s.service, j, ALARM)
    ensures A.IsPending(s.service, j, ALARM) ==> Step(s, e).service.tasks[j] == s.service.tasks[j]
  {
    var k := A.FindTimer(s.service.descriptors, e.tid, 0);
  }

  lemma RunStaysBacked(s: System, j: nat)
    requires Inv(s) && A.CanRun(s.service, j)
    ensures AlarmBacked(Step(s, Executor(j)))
  {
    var v, v' := s.service, Step(s, Executor(j)).service;
    assert v.tasks[j].tid == ALARM ==> v'.queue[|v.queue|] == ALARM;
    if v.tasks[j].tid != ALARM && HasPending(v, ALARM) {
      var i :| 0 <= i < |v.tasks| && A.IsPending(v, i, ALARM);
      assert A.IsPending(v', i, ALARM);
    }
    if s.table.alarm.Some? { RanTaskIsBacked(s, j); }
  }

  lemma DispatchStaysBacked(s: System, lag: nat, script: seq<T.Command>)
    requires Inv(s) && Valid(Dispatch(lag, script))
    ensures AlarmBacked(Step(s, Dispatch(lag, script)))
  {
    var v := s.service;
    if v.queue != [] && v.queue[0] == ALARM {
      var kept := if !HasPending(v, ALARM) then None else s.table.alarm;
      FiringsNeverArm(s.table.(clock := s.table.clock + lag, alarm := kept), Wrap(s.table.clock), script);
    }
    SameTasksStayBacked(s, Step(s, Dispatch(lag, script)));
  }

  lemma AlarmStaysBacked(s: System, e: Event)
    requires Inv(s) && Valid(e) && !e.Task?
    ensures AlarmBacked(Step(s, e))
  {
    var s' := Step(s, e);
    var v := s.service;
    match e
    case Executor(j) =>
      if A.CanRun(v, j) {
        RunStaysBacked(s, j);
      } else {
        SameTasksStayBacked(s, s');
      }
    case Dispatch(lag, script) => DispatchStaysBacked(s, lag, script);
    case OtherStart(_, _, _, _) => OthersStayBacked(s, e);
    case OtherStop(_) => OthersStayBacked(s, e);
    case Client(c) => SameTasksStayBacked(s, s');
  }

  lemma RanTaskIsBacked(s: System, j: nat)
    requires Inv(s) && A.CanRun(s.service, j) && s.table.alarm.Some?
    ensures var v' := Step(s, Executor(j)).service;
      forall i :: 0 <= i < |v'.tasks| ==> DueInTime(v', i, s.table.alarm.value.at)
  {
    var v' := Step(s, Executor(j)).service;
    forall i | 0 <= i < |v'.tasks| ensures DueInTime(v', i, s.table.alarm.value.at) {
      assert DueInTime(s.service, i, s.table.alarm.value.at);
    }
  }

  lemma OthersStayBacked(s: System, e: Event)
    requires Inv(s) && Valid(e) && (e.OtherStart? || e.OtherStop?)
    ensures AlarmBacked(Step(s, e))
  {
    var s' := Step(s, e);
    forall j: nat ensures A.IsPending(s'.service, j, ALARM) <==> A.IsPending(s.service, j, ALARM)
      ensures A.IsPending(s.service, j, ALARM) ==> s'.service.tasks[j] == s.service.tasks[j] {
      OthersKeepAlarm(s, e, j);
    }
    if HasPending(s.service, ALARM) {
      var j :| 0 <= j < |s.service.tasks| && A.IsPending(s.service, j, ALARM);
      assert A.IsPending(s'.service, j, ALARM);
    }
    if s.table.alarm.Some? {
      forall j | 0 <= j < |s'.service.tasks| ensures DueInTime(s'.service, j, s.table.alarm.value.at) {
        if A.IsPending(s'.service, j, ALARM) { assert DueInTime(s.service, j, s.table.alarm.value.at); }
      }
    }
  }

  lemma SameTasksStayBacked(s: System, s': System)
    requires AlarmBacked(s) && s'.service.tasks == s.service.tasks && s'.service.clock >= s.service.clock
    requires s'.table.alarm == s.table.alarm || s'.table.alarm == None
    requires ALARM in s.service.queue ==>
      ALARM in s'.service.queue || HasPending(s.service, ALARM) || s'.table.alarm == None
    ensures AlarmBacked(s')
  {
    if HasPending(s.service, ALARM) {
      var j :| 0 <= j < |s.service.tasks| && A.IsPending(s.service, j, ALARM);
      assert A.IsPending(s'.service, j, ALARM);
    }
    if s'.table.alarm.Some? {
      forall j | 0 <= j < |s'.service.tasks| ensures DueInTime(s'.service, j, s'.table.alarm.value.at) {
        assert DueInTime(s.service, j, s.table.alarm.value.at);
      }
    }
  }

  lemma AlarmStaysOneShot(s: System, e: Event)
    requires Sized(s) && Valid(e) && AlarmIsOneShot(s.service)
    ensures AlarmIsOneShot(Step(s, e).service)
  {
  }

  lemma TableKeepsInv(s: System, e: Event)
    requires Inv(s) && Valid(e)
    ensures T.Inv(StepTable(s, e))
  {
    var te := TableEvent(s, e);
    if te.Some? { T.StepKeepsInv(s.table, te.value); }
  }

  lemma StepKeepsInv(s: System, e: Event)
    requires Inv(s) && Valid(e)
    ensures Inv(Step(s, e))
  {
    TableKeepsInv(s, e);
    AlarmStaysOneShot(s, e);
    if e.Task? && s.table.posted {
      ArmingIsBacked(s, e.lag, e.script);
    } else if e.Task? {
      SameTasksStayBacked(s, Step(s, e));
    } else {
      ServiceKeepsInv(s, e);
      AlarmStaysBacked(s, e);
    }
  }

  // ----- Runs of the whole system -----

  /** The executor will queue a firing of the alarm by every running deadline, or already has. */
  predicate AlarmComing(s: System) {
    || ALARM in s.service.queue
    || exists j :: 0 <= j < |s.service.tasks| && A.IsPending(s.service, j, ALARM) &&
         (s.service.tasks[j].due <= s.service.clock ||
          forall i :: 0 <= i < T.NUM_TIMERS && L.Running(s.table, i) ==>
            s.service.tasks[j].due <= T.Deadline(L.Activities(s.table, i)))
  }

  predicate Served(s: System) {
    s.table.posted || !L.SomeRunning(s.table) || AlarmComing(s)
  }

  lemma CoveredIsServed(s: System)
    requires Inv(s) && L.Covered(s.table)
    ensures Served(s)
  {
    if !s.table.posted && L.SomeRunning(s.table) && ALARM !in s.service.queue {
      var j :| 0 <= j < |s.service.tasks| && A.IsPending(s.service, j, ALARM);
      assert DueInTime(s.service, j, s.table.alarm.value.at);
    }
  }

  predicate AllDispatches(es: seq<Event>) {
    AllValid(es) && forall i :: 0 <= i < |es| ==> es[i].Dispatch?
  }

  lemma DispatchTakesOne(s: System, e: Event)
    requires Sized(s) && e.Dispatch? && Valid(e) && s.service.queue != []
    ensures Step(s, e).service.queue == s.service.queue[1..]
    ensures s.service.queue[0] == ALARM ==> Step(s, e).table.posted
  {
  }

  /** A queued alarm is served: the dispatches up to it, with any handlers, leave the task posted. */
  lemma {:induction false} QueuedAlarmPosts(s: System, es: seq<Event>)
    requires Inv(s) && AllDispatches(es) && 0 < |es| <= |s.service.queue|
    requires s.service.queue[|es| - 1] == ALARM
    ensures Run(s, es).table.posted
    decreases |es|
  {
    var s' := Step(s, es[0]);
    StepKeepsInv(s, es[0]);
    DispatchTakesOne(s, es[0]);
    if |es| == 1 {
      assert es[1..] == [];
    } else {
      QueuedAlarmPosts(s', es[1..]);
    }
  }

  lemma ExecutorQueues(s: System, j: nat)
    requires Inv(s) && A.IsPending(s.service, j, ALARM) && s.service.tasks[j].due <= s.service.clock
    ensures Step(s, Executor(j)).service.queue == s.service.queue + [ALARM]
  {
  }

  /** A scheduled alarm that is due is served: the executor's step queues it behind the events that wait,
      and when all of them and it have been dispatched, with any handlers, the task is posted. */
  lemma DueAlarmPosts(s: System, j: nat, es: seq<Event>)
    requires Inv(s) && A.IsPending(s.service, j, ALARM) && s.service.tasks[j].due <= s.service.clock
    requires AllDispatches(es) && |es| == |s.service.queue| + 1
    ensures AllValid([Executor(j)] + es) && Run(s, [Executor(j)] + es).table.posted
  {
    StepKeepsInv(s, Executor(j));
    ExecutorQueues(s, j);
    QueuedAlarmPosts(Step(s, Executor(j)), es);
    assert ([Executor(j)] + es)[1..] == es;
  }

  predicate ShortEvent(e: Event) {
    match e
    case Client(c) => L.ShortEvent(T.Client(c))
    case Dispatch(_, script) => L.ShortScript(script)
    case Task(_, script) => L.ShortScript(script)
    case _ => true
  }

  predicate ShortEvents(es: seq<Event>) {
    forall j :: 0 <= j < |es| ==> ShortEvent(es[j])
  }

  predicate PunctualRun(s: System, es: seq<Event>)
    requires Sized(s) && AllValid(es)
    decreases |es|
  {
    if es == [] then true
    else (es[0].Task? && s.table.posted ==> L.Punctual(s.table)) && PunctualRun(Step(s, es[0]), es[1..])
  }

  /** The task runs only when it is posted. */
  lemma TaskNeedsPosting(s: System, lag: nat, script: seq<T.Command>)
    requires Inv(s) && T.AllInRange(script) && !s.table.posted
    ensures Step(s, Task(lag, script)) == s
  {
  }

  /** Safety of the composition: with the service's own cancellations, stale events and clock
      wraps, no timer is ever signalled before its true deadline. */
  lemma {:induction false} SystemIsNeverEarly(s: System, es: seq<Event>)
    requires Inv(s) && AllValid(es)
    ensures Inv(Run(s, es)) && T.NeverEarly(Run(s, es).table.trace)
    decreases |es|
  {
    if es != [] {
      StepKeepsInv(s, es[0]);
      SystemIsNeverEarly(Step(s, es[0]), es[1..]);
    }
  }

  /** Liveness of the composition: in every state of a punctual run, either the task is posted,
      or nothing runs, or a firing of the alarm is queued, or the executor holds one scheduled no
      later than every running deadline (or already due). */
  lemma {:induction false} SystemNeverForgets(s: System, es: seq<Event>)
    requires Inv(s) && L.Covered(s.table) && L.ShortIntervals(s.table, L.MAX_DT)
    requires AllValid(es) && ShortEvents(es) && PunctualRun(s, es)
    ensures Served(Run(s, es))
    decreases |es|
  {
    if es == [] {
      CoveredIsServed(s);
    } else {
      var te := TableEvent(s, es[0]);
      StepKeepsInv(s, es[0]);
      if te.Some? {
        L.StepKeepsShort(s.table, te.value);
        L.StepKeepsCovered(s.table, te.value);
      }
      SystemNeverForgets(Step(s, es[0]), es[1..]);
    }
  }

  /** From start-up: in every reachable state no timer was signalled early, each timer id has at most
      one scheduled task, and the runtime timers are served whenever the run was punctual. */
  lemma SystemFromStart(es: seq<Event>, i: nat, j: nat, tid: Byte)
    requires AllValid(es)
    ensures var s := Run(Initial(), es);
      && T.NeverEarly(s.table.trace)
      && (A.IsPending(s.service, i, tid) && A.IsPending(s.service, j, tid) ==> i == j)
      && (ShortEvents(es) && PunctualRun(Initial(), es) ==> Served(s))
  {
    InitialInv();
    SystemIsNeverEarly(Initial(), es);
    var s := Run(Initial(), es);
    if A.IsPending(s.service, i, tid) && A.IsPending(s.service, j, tid) {
      A.OnePendingPerTimer(s.service, i, j, tid);
    }
    if ShortEvents(es) && PunctualRun(Initial(), es) {
      assert forall k :: 0 <= k < T.NUM_TIMERS ==> !L.Running(Initial().table, k);
      SystemNeverForgets(Initial(), es);
    }
  }
}
