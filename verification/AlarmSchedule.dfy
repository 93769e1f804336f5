/** The schedule behind the hardware alarm, as a state machine over values: timer descriptors
    that share one scheduled executor and one event queue. */
module AlarmSchedule {
  import opened Words

  datatype Descriptor = Descriptor(tid: Byte, t0: Word, dt: Word, oneshot: bool, running: bool, task: nat)

  /** A future of the executor: it has run, or was cancelled, or is still scheduled. */
  datatype Status = Pending | Cancelled | Done

  /** `period` is 0 for a one-shot. */
  datatype ScheduledTask = ScheduledTask(tid: Byte, due: nat, period: Word, status: Status)

  /** `clock` is the milliseconds since the service was loaded, a Java `long`; the middleware
      sees it wrapped. `queue` holds the timer events not dispatched yet. */
  datatype Service = Service(
    descriptors: seq<Descriptor>,
    tasks: seq<ScheduledTask>,
    queue: seq<Byte>,
    clock: nat)

  function FindTimer(ds: seq<Descriptor>, tid: Byte, from: nat): (k: nat)
    requires from <= |ds|
    ensures from <= k <= |ds|
    ensures forall i :: from <= i < k ==> ds[i].tid != tid
    ensures k < |ds| ==> ds[k].tid == tid
    decreases |ds| - from
  {
    if from == |ds| || ds[from].tid == tid then from else FindTimer(ds, tid, from + 1)
  }

  /** `cancel(false)`: no effect on a task that has run; events it already queued stay. */
  function Cancel(tasks: seq<ScheduledTask>, j: nat): (r: seq<ScheduledTask>)
    requires j < |tasks|
    ensures |r| == |tasks|
  {
    if tasks[j].status == Pending then tasks[j := tasks[j].(status := Cancelled)] else tasks
  }

  /** The instant a start made at `now` is scheduled for. */
  function DueTime(t0: Word, dt: Word, now: nat): nat {
    var t1 := t0 + dt;
    var delay := if now <= t1 then t1 - now else 0;
    now + delay
  }

  predicate Linked(s: Service) {
    forall k :: 0 <= k < |s.descriptors| ==> s.descriptors[k].task < |s.tasks|
  }

  function Start(s: Service, tid: Byte, t0: Word, dt: Word, oneshot: bool): (s': Service)
    requires Linked(s)
    ensures Linked(s')
  {
    var k := FindTimer(s.descriptors, tid, 0);
    var d := Descriptor(tid, t0, dt, oneshot, true, |s.tasks|);
    var task := ScheduledTask(tid, DueTime(t0, dt, s.clock), if oneshot then 0 else dt, Pending);
    if k < |s.descriptors| then
      s.(descriptors := s.descriptors[k := d], tasks := Cancel(s.tasks, s.descriptors[k].task) + [task])
    else
      s.(descriptors := s.descriptors + [d], tasks := s.tasks + [task])
  }

  function Stop(s: Service, tid: Byte): (s': Service)
    requires Linked(s)
    ensures Linked(s')
  {
    var k := FindTimer(s.descriptors, tid, 0);
    if k < |s.descriptors| then
      s.(descriptors := s.descriptors[k := s.descriptors[k].(running := false)],
         tasks := Cancel(s.tasks, s.descriptors[k].task))
    else s
  }

  predicate CanRun(s: Service, j: nat) {
    j < |s.tasks| && s.tasks[j].status == Pending && s.tasks[j].due <= s.clock
  }

  /** The executor runs a due task, which queues an event; a periodic task is scheduled again. */
  function RunTask(s: Service, j: nat): (s': Service)
    requires Linked(s) && CanRun(s, j)
    ensures Linked(s')
  {
    var t := s.tasks[j];
    s.(queue := s.queue + [t.tid],
       tasks := s.tasks[j := if t.period == 0 then t.(status := Done) else t.(due := t.due + t.period)])
  }

  /** The service's part of dispatching the oldest event. */
  function Dispatch(s: Service): (s': Service)
    requires Linked(s) && s.queue != []
    ensures Linked(s')
  {
    var k := FindTimer(s.descriptors, s.queue[0], 0);
    var s1 := s.(queue := s.queue[1..]);
    if k == |s.descriptors| then s1
    else
      var d := s.descriptors[k];
      var d' := if d.oneshot then d.(running := false) else d.(t0 := Wrap(s.clock));
      s1.(descriptors := s.descriptors[k := d'])
  }

  // ----- The invariant -----

  predicate IsPending(s: Service, j: nat, tid: Byte) {
    j < |s.tasks| && s.tasks[j].status == Pending && s.tasks[j].tid == tid
  }

  predicate HasTimer(ds: seq<Descriptor>, tid: Byte) {
    exists k :: 0 <= k < |ds| && ds[k].tid == tid
  }

  predicate Controls(ds: seq<Descriptor>, j: nat) {
    exists k :: 0 <= k < |ds| && ds[k].task == j
  }

  lemma TimersStay(ds: seq<Descriptor>, ds': seq<Descriptor>, tid: Byte)
    requires |ds| <= |ds'| && (forall k :: 0 <= k < |ds| ==> ds'[k].tid == ds[k].tid) && HasTimer(ds, tid)
    ensures HasTimer(ds', tid)
  {
    var k :| 0 <= k < |ds| && ds[k].tid == tid;
    assert ds'[k].tid == tid;
  }

  lemma ControlStays(ds: seq<Descriptor>, ds': seq<Descriptor>, j: nat)
    requires |ds| <= |ds'| && Controls(ds, j)
    requires forall k :: 0 <= k < |ds| && ds[k].task == j ==> ds'[k].task == j
    ensures Controls(ds', j)
  {
    var k :| 0 <= k < |ds| && ds[k].task == j;
    assert ds'[k].task == j;
  }

  predicate QueueKnown(s: Service) {
    forall q :: 0 <= q < |s.queue| ==> HasTimer(s.descriptors, s.queue[q])
  }

  lemma QueueStaysKnown(s: Service, s': Service)
    requires QueueKnown(s) && s'.queue == s.queue && |s.descriptors| <= |s'.descriptors|
    requires forall k :: 0 <= k < |s.descriptors| ==> s'.descriptors[k].tid == s.descriptors[k].tid
    ensures QueueKnown(s')
  {
    forall q | 0 <= q < |s'.queue| ensures HasTimer(s'.descriptors, s'.queue[q]) {
      TimersStay(s.descriptors, s'.descriptors, s.queue[q]);
    }
  }

  predicate Inv(s: Service) {
    && Linked(s)
    && (forall k, l :: 0 <= k < l < |s.descriptors| ==> s.descriptors[k].tid != s.descriptors[l].tid)
    && (forall k :: 0 <= k < |s.descriptors| ==> s.tasks[s.descriptors[k].task].tid == s.descriptors[k].tid)
    && (forall j :: 0 <= j < |s.tasks| && s.tasks[j].status == Pending ==> Controls(s.descriptors, j))
    && QueueKnown(s)
  }

  /** At most one scheduled task per timer, and it is the one its descriptor can cancel. */
  lemma OnePendingPerTimer(s: Service, i: nat, j: nat, tid: Byte)
    requires Inv(s) && IsPending(s, i, tid) && IsPending(s, j, tid)
    ensures i == j
  {
    assert Controls(s.descriptors, i) && Controls(s.descriptors, j);
    var k :| 0 <= k < |s.descriptors| && s.descriptors[k].task == i;
    var l :| 0 <= l < |s.descriptors| && s.descriptors[l].task == j;
  }

  lemma StartKeepsInv(s: Service, tid: Byte, t0: Word, dt: Word, oneshot: bool)
    requires Inv(s)
    ensures Inv(Start(s, tid, t0, dt, oneshot))
    ensures IsPending(Start(s, tid, t0, dt, oneshot), |s.tasks|, tid)
  {
    var s' := Start(s, tid, t0, dt, oneshot);
    var k := FindTimer(s.descriptors, tid, 0);
    assert s'.descriptors[k].task == |s.tasks|;
    forall j | 0 <= j < |s'.tasks| && s'.tasks[j].status == Pending ensures Controls(s'.descriptors, j) {
      if j < |s.tasks| { ControlStays(s.descriptors, s'.descriptors, j); }
    }
    QueueStaysKnown(s, s');
  }

  /** After a stop the timer has no scheduled task, and the other timers keep theirs. */
  lemma StopKeepsInv(s: Service, tid: Byte)
    requires Inv(s)
    ensures Inv(Stop(s, tid)) && |Stop(s, tid).tasks| == |s.tasks|
    ensures forall j :: 0 <= j < |s.tasks| ==> !IsPending(Stop(s, tid), j, tid)
    ensures forall j :: 0 <= j < |s.tasks| && !IsPending(s, j, tid) ==> Stop(s, tid).tasks[j] == s.tasks[j]
  {
    var s' := Stop(s, tid);
    forall j | 0 <= j < |s'.tasks| && s'.tasks[j].status == Pending
      ensures s'.tasks[j].tid != tid && Controls(s'.descriptors, j)
    {
      assert Controls(s.descriptors, j);
      var l :| 0 <= l < |s.descriptors| && s.descriptors[l].task == j;
      ControlStays(s.descriptors, s'.descriptors, j);
    }
    QueueStaysKnown(s, s');
  }

  lemma RunTaskKeepsInv(s: Service, j: nat)
    requires Inv(s) && CanRun(s, j)
    ensures Inv(RunTask(s, j))
  {
    var s' := RunTask(s, j);
    assert Controls(s.descriptors, j);
    var k :| 0 <= k < |s.descriptors| && s.descriptors[k].task == j;
    assert s'.descriptors[k].tid == s'.queue[|s.queue|];
  }

  lemma DispatchKeepsInv(s: Service)
    requires Inv(s) && s.queue != []
    ensures Inv(Dispatch(s)) && Dispatch(s).tasks == s.tasks
    ensures FindTimer(s.descriptors, s.queue[0], 0) < |s.descriptors|
  {
    var s' := Dispatch(s);
    assert HasTimer(s.descriptors, s.queue[0]);
    forall j | 0 <= j < |s'.tasks| && s'.tasks[j].status == Pending ensures Controls(s'.descriptors, j) {
      ControlStays(s.descriptors, s'.descriptors, j);
    }
    forall q | 0 <= q < |s'.queue| ensures HasTimer(s'.descriptors, s'.queue[q]) {
      TimersStay(s.descriptors, s'.descriptors, s.queue[q + 1]);
    }
  }

  /** A start asked for at the true instant `t0` is never scheduled late, and is scheduled for
      exactly max(now, t0 + dt) until the visible clock wraps; after that, exactly when it is
      already overdue. */
  lemma DueTimeIsExact(t0: nat, dt: Word, now: nat)
    requires t0 <= now
    ensures var wanted := if t0 + dt > now then t0 + dt else now;
      && now <= DueTime(Wrap(t0), dt, now) <= wanted
      && (DueTime(Wrap(t0), dt, now) == wanted <==> t0 < 0x1_0000_0000 || t0 + dt <= now)
  {
  }
}
