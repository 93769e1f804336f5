/** What the timer service reports of its timers, over every run, and when a report is wrong. */
module AlarmReports {
  import opened Words
  import opened AlarmSchedule

  /** The answers of the getters; of an unknown timer they are zeros. */
  datatype Report = Report(running: bool, t0: Word, dt: Word, oneshot: bool)

  function Reported(s: Service, tid: Byte): Report {
    var k := FindTimer(s.descriptors, tid, 0);
    if k == |s.descriptors| then Report(false, 0, 0, false)
    else
      var d := s.descriptors[k];
      Report(d.running, d.t0, d.dt, d.oneshot)
  }

  predicate HasPending(s: Service, tid: Byte) {
    exists j :: 0 <= j < |s.tasks| && IsPending(s, j, tid)
  }

  // ----- Runs of the service -----

  /** `Execute` is the executor reaching a due future, `Deliver` the dispatch of the oldest event. */
  datatype Action =
    | Begin(tid: Byte, t0: Word, dt: Word, oneshot: bool)
    | End(tid: Byte)
    | Execute(j: nat)
    | Deliver
    | Elapse(span: nat)

  /** The executor refuses a periodic schedule of period 0. */
  predicate Valid(a: Action) {
    a.Begin? ==> a.oneshot || a.dt > 0
  }

  function Act(s: Service, a: Action): (s': Service)
    requires Linked(s)
    ensures Linked(s')
  {
    match a
    case Begin(tid, t0, dt, oneshot) => Start(s, tid, t0, dt, oneshot)
    case End(tid) => Stop(s, tid)
    case Execute(j) => if CanRun(s, j) then RunTask(s, j) else s
    case Deliver => if s.queue != [] then Dispatch(s) else s
    case Elapse(span) => s.(clock := s.clock + span)
  }

  predicate AllValid(acts: seq<Action>) {
    forall i :: 0 <= i < |acts| ==> Valid(acts[i])
  }

  function Run(s: Service, acts: seq<Action>): (s': Service)
    requires Linked(s)
    ensures Linked(s')
    decreases |acts|
  {
    if acts == [] then s else Run(Act(s, acts[0]), acts[1..])
  }

  // ----- What each action does to the reports -----

  lemma ActKeepsInv(s: Service, a: Action)
    requires Inv(s)
    ensures Inv(Act(s, a))
  {
    match a
    case Begin(tid, t0, dt, oneshot) => StartKeepsInv(s, tid, t0, dt, oneshot);
    case End(tid) => StopKeepsInv(s, tid);
    case Execute(j) => if CanRun(s, j) { RunTaskKeepsInv(s, j); }
    case Deliver => if s.queue != [] { DispatchKeepsInv(s); }
    case Elapse(_) =>
  }

  /** Changing the descriptor of one timer, or adding it, changes no other timer's report. */
  lemma OthersReportSame(ds: seq<Descriptor>, k: nat, d: Descriptor, tid: Byte)
    requires k <= |ds| && d.tid != tid && (k < |ds| ==> ds[k].tid == d.tid)
    ensures var ds' := if k < |ds| then ds[k := d] else ds + [d];
      var i, i' := FindTimer(ds, tid, 0), FindTimer(ds', tid, 0);
      && (i == |ds| <==> i' == |ds'|)
      && (i < |ds| ==> i' == i && ds'[i] == ds[i])
  {
    var ds' := if k < |ds| then ds[k := d] else ds + [d];
    var i, i' := FindTimer(ds, tid, 0), FindTimer(ds', tid, 0);
    if i < |ds| { assert ds'[i].tid == tid; }
    if i' < |ds'| { assert ds'[i'].tid == tid && i' != k; }
  }

  lemma OwnReportIs(ds: seq<Descriptor>, d: Descriptor)
    ensures var k := FindTimer(ds, d.tid, 0);
      var ds' := if k < |ds| then ds[k := d] else ds + [d];
      FindTimer(ds', d.tid, 0) == k && ds'[k] == d
  {
    var k := FindTimer(ds, d.tid, 0);
    var ds' := if k < |ds| then ds[k := d] else ds + [d];
    assert ds'[k].tid == d.tid;
  }

  lemma ReplacedReports(ds: seq<Descriptor>, d: Descriptor, tid: Byte)
    requires FindTimer(ds, d.tid, 0) < |ds|
    ensures var k := FindTimer(ds, d.tid, 0);
      var i, i' := FindTimer(ds, tid, 0), FindTimer(ds[k := d], tid, 0);
      i' == i && (tid == d.tid ==> i == k) && (i < |ds| && i != k ==> ds[k := d][i] == ds[i])
  {
    OwnReportIs(ds, d);
    if tid != d.tid { OthersReportSame(ds, FindTimer(ds, d.tid, 0), d, tid); }
  }

  lemma BeginReports(s: Service, t: Byte, t0: Word, dt: Word, oneshot: bool, tid: Byte)
    requires Inv(s)
    ensures Reported(Start(s, t, t0, dt, oneshot), tid)
         == if t == tid then Report(true, t0, dt, oneshot) else Reported(s, tid)
  {
    var d := Descriptor(t, t0, dt, oneshot, true, |s.tasks|);
    OwnReportIs(s.descriptors, d);
    if t != tid { OthersReportSame(s.descriptors, FindTimer(s.descriptors, t, 0), d, tid); }
  }

  lemma EndReports(s: Service, t: Byte, tid: Byte)
    requires Inv(s)
    ensures var r := Reported(s, tid);
      Reported(Stop(s, t), tid) == if t == tid then Report(false, r.t0, r.dt, r.oneshot) else r
  {
    var k := FindTimer(s.descriptors, t, 0);
    if k < |s.descriptors| { ReplacedReports(s.descriptors, s.descriptors[k].(running := false), tid); }
  }

  lemma DeliverReports(s: Service, tid: Byte)
    requires Inv(s) && s.queue != []
    ensures var r := Reported(s, tid);
      Reported(Dispatch(s), tid) ==
        if s.queue[0] != tid then r
        else if r.oneshot then Report(false, r.t0, r.dt, true)
        else Report(r.running, Wrap(s.clock), r.dt, false)
  {
    DispatchKeepsInv(s);
    var k := FindTimer(s.descriptors, s.queue[0], 0);
    ReplacedReports(s.descriptors, Dispatch(s).descriptors[k], tid);
  }

  /** A start is reported as it was asked for; a stop only ends the running; an event ends a one-shot's
      and moves a periodic timer's start to the time of its dispatch; the executor and the time change
      no report, and no action changes the report of another timer. */
  lemma ReportsAfter(s: Service, a: Action, tid: Byte)
    requires Inv(s)
    ensures var r := Reported(s, tid);
      Reported(Act(s, a), tid) ==
        match a
        case Begin(t, t0, dt, oneshot) => if t == tid then Report(true, t0, dt, oneshot) else r
        case End(t) => if t == tid then Report(false, r.t0, r.dt, r.oneshot) else r
        case Deliver =>
          if s.queue == [] || s.queue[0] != tid then r
          else if r.oneshot then Report(false, r.t0, r.dt, true)
          else Report(r.running, Wrap(s.clock), r.dt, false)
        case _ => r
  {
    match a
    case Begin(t, t0, dt, oneshot) => BeginReports(s, t, t0, dt, oneshot, tid);
    case End(t) => EndReports(s, t, tid);
    case Deliver => if s.queue != [] { DeliverReports(s, tid); }
    case _ =>
  }

  // ----- Reports against what the executor holds -----

  /** The future of a descriptor: of its kind and, while it is reported as running, scheduled or, for
      a one-shot, with its event still queued. */
  predicate Backs(s: Service, k: nat)
    requires Linked(s) && k < |s.descriptors|
  {
    var d := s.descriptors[k];
    var t := s.tasks[d.task];
    && t.period == (if d.oneshot then 0 else d.dt) && (!d.oneshot ==> d.dt > 0)
    && (d.running ==> t.status == Pending || (d.oneshot && d.tid in s.queue))
  }

  predicate Backed(s: Service) {
    Linked(s) && forall k :: 0 <= k < |s.descriptors| ==> Backs(s, k)
  }

  /** Different timers have different futures. */
  lemma OwnFutures(s: Service, k: nat, l: nat)
    requires Inv(s) && k < |s.descriptors| && l < |s.descriptors| && k != l
    ensures s.descriptors[k].task != s.descriptors[l].task
  {
    assert s.tasks[s.descriptors[k].task].tid == s.descriptors[k].tid;
    assert s.tasks[s.descriptors[l].task].tid == s.descriptors[l].tid;
  }

  lemma BeginKeepsBacked(s: Service, tid: Byte, t0: Word, dt: Word, oneshot: bool)
    requires Inv(s) && Backed(s) && (oneshot || dt > 0)
    ensures Backed(Start(s, tid, t0, dt, oneshot))
  {
    var s' := Start(s, tid, t0, dt, oneshot);
    var k := FindTimer(s.descriptors, tid, 0);
    forall l | 0 <= l < |s'.descriptors| ensures Backs(s', l) {
      if l != k {
        assert Backs(s, l);
        if k < |s.descriptors| { OwnFutures(s, l, k); }
      }
    }
  }

  lemma EndKeepsBacked(s: Service, tid: Byte)
    requires Inv(s) && Backed(s)
    ensures Backed(Stop(s, tid))
  {
    var s' := Stop(s, tid);
    var k := FindTimer(s.descriptors, tid, 0);
    forall l | 0 <= l < |s'.descriptors| ensures Backs(s', l) {
      assert Backs(s, l);
      if k < |s.descriptors| && l != k { OwnFutures(s, l, k); }
    }
  }

  lemma ExecuteKeepsBacked(s: Service, j: nat)
    requires Inv(s) && Backed(s) && CanRun(s, j)
    ensures Backed(RunTask(s, j))
  {
    var s' := RunTask(s, j);
    forall l | 0 <= l < |s'.descriptors| ensures Backs(s', l) {
      assert Backs(s, l);
      if s.descriptors[l].task == j { assert s'.queue[|s.queue|] == s.descriptors[l].tid; }
    }
  }

  lemma DeliverKeepsBacked(s: Service)
    requires Inv(s) && Backed(s) && s.queue != []
    ensures Backed(Dispatch(s))
  {
    var s' := Dispatch(s);
    DispatchKeepsInv(s);
    var k := FindTimer(s.descriptors, s.queue[0], 0);
    forall l | 0 <= l < |s'.descriptors| ensures Backs(s', l) {
      assert Backs(s, l);
      if l != k && s.descriptors[l].tid in s.queue {
        assert s.queue == [s.queue[0]] + s'.queue;
      }
    }
  }

  lemma ActKeepsBacked(s: Service, a: Action)
    requires Inv(s) && Backed(s) && Valid(a)
    ensures Backed(Act(s, a))
  {
    match a
    case Begin(tid, t0, dt, oneshot) => BeginKeepsBacked(s, tid, t0, dt, oneshot);
    case End(tid) => EndKeepsBacked(s, tid);
    case Execute(j) => if CanRun(s, j) { ExecuteKeepsBacked(s, j); }
    case Deliver => if s.queue != [] { DeliverKeepsBacked(s); }
    case Elapse(span) =>
      forall l | 0 <= l < |s.descriptors| ensures Backs(Act(s, a), l) { assert Backs(s, l); }
  }

  lemma {:induction false} RunKeepsBacked(s: Service, acts: seq<Action>)
    requires Inv(s) && Backed(s) && AllValid(acts)
    ensures Inv(Run(s, acts)) && Backed(Run(s, acts))
    decreases |acts|
  {
    if acts != [] {
      ActKeepsInv(s, acts[0]);
      ActKeepsBacked(s, acts[0]);
      RunKeepsBacked(Act(s, acts[0]), acts[1..]);
    }
  }

  /** The actions of a run follow one another. */
  lemma {:induction false} RunAppends(s: Service, acts: seq<Action>, a: Action)
    requires Linked(s)
    ensures Run(s, []) == s && Run(s, acts + [a]) == Act(Run(s, acts), a)
    decreases |acts|
  {
    if acts == [] {
      assert acts + [a] == [a] && Run(Act(s, a), []) == Act(s, a);
    } else {
      RunAppends(Act(s, acts[0]), acts[1..], a);
      assert (acts + [a])[1..] == acts[1..] + [a];
    }
  }

  /** In every run, a timer that is reported as running will be heard of: the executor holds a future of
      it, or, for a one-shot, its event is queued. */
  lemma RunningIsBacked(acts: seq<Action>, tid: Byte)
    requires AllValid(acts)
    ensures var s := Run(Service([], [], [], 0), acts);
      Reported(s, tid).running ==> HasPending(s, tid) || (Reported(s, tid).oneshot && tid in s.queue)
  {
    RunKeepsBacked(Service([], [], [], 0), acts);
    var s := Run(Service([], [], [], 0), acts);
    var k := FindTimer(s.descriptors, tid, 0);
    if k < |s.descriptors| {
      assert Backs(s, k);
      if s.tasks[s.descriptors[k].task].status == Pending { assert IsPending(s, s.descriptors[k].task, tid); }
    }
  }

  // ----- The converse, which fails -----

  /** Every timer that the executor holds a future of is reported as running. */
  predicate Truthful(s: Service) {
    forall j :: 0 <= j < |s.tasks| && s.tasks[j].status == Pending ==> Reported(s, s.tasks[j].tid).running
  }

  /** The oldest event is of a one-shot that has been started again since. */
  predicate Stale(s: Service) {
    s.queue != [] && Reported(s, s.queue[0]).oneshot && HasPending(s, s.queue[0])
  }

  /** A future scheduled after an action is new, or was scheduled before. */
  lemma PendingComesFrom(s: Service, a: Action, j: nat)
    requires Inv(s) && j < |Act(s, a).tasks| && Act(s, a).tasks[j].status == Pending
    ensures j < |s.tasks| ==> s.tasks[j].status == Pending && s.tasks[j].tid == Act(s, a).tasks[j].tid
    ensures j == |s.tasks| ==> a.Begin? && Act(s, a).tasks[j].tid == a.tid
    ensures j <= |s.tasks|
    ensures a.End? ==> Act(s, a).tasks[j].tid != a.tid
  {
    if a.End? {
      StopKeepsInv(s, a.tid);
      assert !IsPending(Stop(s, a.tid), j, a.tid);
    }
  }

  /** What is scheduled is reported as running until exactly such an event is dispatched. */
  lemma MisreportsIff(s: Service, a: Action)
    requires Inv(s) && Truthful(s)
    ensures Truthful(Act(s, a)) <==> !(a.Deliver? && Stale(s))
  {
    var s' := Act(s, a);
    if a.Deliver? && Stale(s) {
      var j :| 0 <= j < |s.tasks| && IsPending(s, j, s.queue[0]);
      ReportsAfter(s, a, s.queue[0]);
      DispatchKeepsInv(s);
      assert s'.tasks[j].status == Pending && !Reported(s', s'.tasks[j].tid).running;
    } else {
      forall j | 0 <= j < |s'.tasks| && s'.tasks[j].status == Pending
        ensures Reported(s', s'.tasks[j].tid).running
      {
        PendingComesFrom(s, a, j);
        ReportsAfter(s, a, s'.tasks[j].tid);
        if a.Deliver? && s.queue != [] && s.queue[0] == s'.tasks[j].tid { assert IsPending(s, j, s.queue[0]); }
      }
    }
  }

  /** The failing input, in any state reached: a one-shot is started while its earlier event is the next to
      be dispatched. After that it is reported as stopped although the executor holds its future. */
  lemma RestartIsMisreported(s: Service, t0: Word, dt: Word)
    requires Inv(s) && s.queue != []
    ensures var tid := s.queue[0];
      var s' := Act(s, Begin(tid, t0, dt, true));
      && Reported(s', tid) == Report(true, t0, dt, true) && HasPending(s', tid)
      && Reported(Act(s', Deliver), tid) == Report(false, t0, dt, true) && HasPending(Act(s', Deliver), tid)
  {
    var tid := s.queue[0];
    var s' := Act(s, Begin(tid, t0, dt, true));
    StartKeepsInv(s, tid, t0, dt, true);
    BeginReports(s, tid, t0, dt, true, tid);
    DeliverReports(s', tid);
    DispatchKeepsInv(s');
    assert IsPending(s', |s.tasks|, tid) && IsPending(Dispatch(s'), |s.tasks|, tid);
  }

  // ----- The executor -----

  /** A start schedules one future: at t0 + dt on the service's clock, or now when that has passed, and
      repeated every `dt` unless it is a one-shot's. It leaves no earlier future of the timer scheduled,
      and those of the others as they were. */
  lemma SchedulingIs(s: Service, tid: Byte, t0: Word, dt: Word, oneshot: bool)
    requires Inv(s)
    ensures var s' := Start(s, tid, t0, dt, oneshot);
      var due := if t0 + dt < s.clock then s.clock else t0 + dt;
      && |s'.tasks| == |s.tasks| + 1 && s'.queue == s.queue && s'.clock == s.clock
      && s'.tasks[|s.tasks|] == ScheduledTask(tid, due, if oneshot then 0 else dt, Pending)
      && (forall j :: 0 <= j < |s.tasks| ==> !IsPending(s', j, tid))
      && (forall j :: 0 <= j < |s.tasks| && s.tasks[j].tid != tid ==> s'.tasks[j] == s.tasks[j])
  {
    var s' := Start(s, tid, t0, dt, oneshot);
    StartKeepsInv(s, tid, t0, dt, oneshot);
    forall j | 0 <= j < |s.tasks| ensures !IsPending(s', j, tid) {
      if IsPending(s', j, tid) { OnePendingPerTimer(s', j, |s.tasks|, tid); }
    }
  }

  /** A future runs at its time or later and queues one event. A one-shot's never runs again; a periodic
      one's stays scheduled, exactly one period after the time it was due. */
  lemma ExecutionIs(s: Service, j: nat)
    requires Linked(s) && j < |s.tasks|
    ensures CanRun(s, j) <==> s.tasks[j].status == Pending && s.clock >= s.tasks[j].due
    ensures CanRun(s, j) ==>
      var s', t := RunTask(s, j), s.tasks[j];
      && s'.queue == s.queue + [t.tid] && s'.descriptors == s.descriptors && s'.clock == s.clock
      && s'.tasks == s.tasks[j := s'.tasks[j]]
      && (t.period == 0 ==> s'.tasks[j].status == Done)
      && (t.period > 0 ==> s'.tasks[j] == ScheduledTask(t.tid, t.due + t.period, t.period, Pending))
  {
  }
}
