/** The Java timer service as the imperative component: descriptor objects in a list, updated in
    place. Every method is proved against the state machine `AlarmSchedule`. */
module TimerServices {
  import opened Words
  import opened AlarmSchedule
  import AlarmReports

  class TimerDescriptor {
    const tid: Byte
    var t0: Word
    var dt: Word
    var isOneShot: bool
    var isRunning: bool
    var task: nat

    constructor (id: Byte, t0: Word, dt: Word, oneshot: bool, running: bool, task: nat)
      ensures tid == id && this.t0 == t0 && this.dt == dt
      ensures isOneShot == oneshot && isRunning == running && this.task == task
    {
      tid, this.t0, this.dt, isOneShot, isRunning, this.task := id, t0, dt, oneshot, running, task;
    }

    function Value(): Descriptor
      reads this
    {
      Descriptor(tid, t0, dt, isOneShot, isRunning, task)
    }
  }

  /** A list of distinct objects with the values `ds`. */
  ghost predicate Represents(tds: seq<TimerDescriptor>, ds: seq<Descriptor>)
    reads tds
  {
    && (forall i, j :: 0 <= i < j < |tds| ==> tds[i] != tds[j])
    && |ds| == |tds|
    && (forall i :: 0 <= i < |tds| ==> tds[i].Value() == ds[i])
  }

  /** The descriptors with the one of `d`'s timer replaced or added. */
  function Described(ds: seq<Descriptor>, d: Descriptor): (r: seq<Descriptor>)
    ensures AlarmSchedule.FindTimer(ds, d.tid, 0) < |r| && r[AlarmSchedule.FindTimer(ds, d.tid, 0)] == d
  {
    var k := AlarmSchedule.FindTimer(ds, d.tid, 0);
    if k < |ds| then ds[k := d] else ds + [d]
  }

  /** A start describes the timer, cancels its future and links the new one. */
  lemma StartDescribes(s: Service, tid: Byte, t0: Word, dt: Word, oneshot: bool, task: nat)
    requires Linked(s)
    ensures var s' := Start(s, tid, t0, dt, oneshot);
      var k := AlarmSchedule.FindTimer(s.descriptors, tid, 0);
      var ds := Described(s.descriptors, Descriptor(tid, t0, dt, oneshot, true, task));
      var tasks := if k < |s.descriptors| then Cancel(s.tasks, s.descriptors[k].task) else s.tasks;
      && s'.descriptors == ds[k := ds[k].(task := |tasks|)]
      && s'.tasks == tasks + [ScheduledTask(tid, DueTime(t0, dt, s.clock), if oneshot then 0 else dt, Pending)]
      && s'.queue == s.queue && s'.clock == s.clock
  {
  }

  class TimerService {
    var timerList: seq<TimerDescriptor>
    var futures: seq<ScheduledTask>   // the executor's futures, by handle
    var events: seq<Byte>
    var millis: nat
    ghost var model: Service

    ghost predicate Valid()
      reads this, timerList
    {
      && Represents(timerList, model.descriptors)
      && model.tasks == futures && model.queue == events && model.clock == millis
      && Linked(model)
    }

    constructor ()
      ensures Valid() && Inv(model) && model == Service([], [], [], 0)
    {
      timerList, futures, events, millis := [], [], [], 0;
      model := Service([], [], [], 0);
    }

    method FindTimer(tid: Byte) returns (td: TimerDescriptor?, ghost k: nat)
      requires Valid()
      ensures k == AlarmSchedule.FindTimer(model.descriptors, tid, 0)
      ensures td == if k < |timerList| then timerList[k] else null
    {
      k := 0;
      for i := 0 to |timerList|
        invariant k == i
        invariant AlarmSchedule.FindTimer(model.descriptors, tid, 0)
               == AlarmSchedule.FindTimer(model.descriptors, tid, i)
      {
        assert timerList[i].Value() == model.descriptors[i];
        if timerList[i].tid == tid {
          return timerList[i], k;
        }
        k := i + 1;
      }
      td := null;
    }

    method CancelFuture(j: nat)
      requires j < |futures|
      modifies this`futures
      ensures futures == Cancel(old(futures), j)
    {
      if futures[j].status == Pending {
        futures := futures[j := futures[j].(status := Cancelled)];
      }
    }

    /** The descriptor of `tid`, updated or added, with any pending future cancelled. */
    method Describe(tid: Byte, t0: Word, dt: Word, oneshot: bool) returns (td: TimerDescriptor, ghost k: nat)
      requires Valid()
      modifies this`timerList, this`futures, timerList
      ensures k == AlarmSchedule.FindTimer(model.descriptors, tid, 0)
      ensures k < |timerList| && td == timerList[k]
      ensures td.Value() == Descriptor(tid, t0, dt, oneshot, true, td.task)
      ensures Represents(timerList, Described(model.descriptors, td.Value()))
      ensures var ds := model.descriptors;
        futures == if k < |ds| then Cancel(old(futures), ds[k].task) else old(futures)
      ensures td in old(timerList) || fresh(td)
    {
      var found;
      found, k := FindTimer(tid);
      if found != null {
        td := found;
        CancelFuture(td.task);
        td.t0 := t0;
        td.dt := dt;
        td.isOneShot := oneshot;
        td.isRunning := true;
      } else {
        td := new TimerDescriptor(tid, t0, dt, oneshot, true, 0);
        timerList := timerList + [td];
      }
    }

    method InitialDelay(t0: Word, dt: Word) returns (delay: nat)
      ensures millis + delay == DueTime(t0, dt, millis)
    {
      var t1 := t0 + dt;
      delay := 0;
      if millis <= t1 {
        delay := t1 - millis;
      }
    }

    /** The new future, and the descriptor that may cancel it. */
    method Schedule(td: TimerDescriptor, due: nat, period: Word, ghost k: nat, ghost ds: seq<Descriptor>)
      requires Represents(timerList, ds) && k < |ds| && td == timerList[k]
      modifies this`futures, td`task
      ensures futures == old(futures) + [ScheduledTask(td.tid, due, period, Pending)]
      ensures Represents(timerList, ds[k := ds[k].(task := |old(futures)|)])
    {
      futures := futures + [ScheduledTask(td.tid, due, period, Pending)];
      td.task := |futures| - 1;
    }

    /** The descriptor's new future, in place of any pending one. */
    method Reschedule(tid: Byte, t0: Word, dt: Word, oneshot: bool, delay: nat)
      returns (ghost task: nat)
      requires Valid()
      modifies this`timerList, this`futures, timerList
      ensures var ds := model.descriptors;
        var k := AlarmSchedule.FindTimer(ds, tid, 0);
        var described := Described(ds, Descriptor(tid, t0, dt, oneshot, true, task));
        var tasks := if k < |ds| then Cancel(old(futures), ds[k].task) else old(futures);
        && Represents(timerList, described[k := described[k].(task := |tasks|)])
        && futures == tasks + [ScheduledTask(tid, millis + delay, if oneshot then 0 else dt, Pending)]
    {
      var td, k := Describe(tid, t0, dt, oneshot);
      task := td.task;
      Schedule(td, millis + delay, if oneshot then 0 else dt, k, Described(model.descriptors, td.Value()));
    }

    /** `JNICallback_startTimer`; the executor refuses a periodic schedule of period 0. */
    method StartTimer(tid: Byte, t0: Word, dt: Word, oneshot: bool)
      requires Valid() && (oneshot || dt > 0)
      modifies this, timerList
      ensures Valid() && model == Start(old(model), tid, t0, dt, oneshot)
    {
      var delay := InitialDelay(t0, dt);
      var task := Reschedule(tid, t0, dt, oneshot, delay);
      StartDescribes(model, tid, t0, dt, oneshot, task);
      model := Start(model, tid, t0, dt, oneshot);
    }

    /** `JNICallback_stop`. */
    method StopTimer(tid: Byte)
      requires Valid()
      modifies this, timerList
      ensures Valid() && model == Stop(old(model), tid)
    {
      ghost var goal := Stop(model, tid);
      var td, k := FindTimer(tid);
      if td != null {
        CancelFuture(td.task);
        td.isRunning := false;
      }
      model := goal;
    }

    /** The executor reaching a due future: `TimerTask.run` queues the event. */
    method RunFuture(j: nat)
      requires Valid() && CanRun(model, j)
      modifies this
      ensures Valid() && model == RunTask(old(model), j)
    {
      var t := futures[j];
      events := events + [t.tid];
      futures := futures[j := if t.period == 0 then t.(status := Done) else t.(due := t.due + t.period)];
      model := RunTask(model, j);
    }

    /** What an event does to its timer's descriptor. */
    method MarkFired(td: TimerDescriptor, ghost k: nat, ghost ds: seq<Descriptor>)
      requires Represents(timerList, ds) && k < |ds| && td == timerList[k]
      modifies td`t0, td`isRunning
      ensures Represents(timerList, ds[k := if ds[k].oneshot then ds[k].(running := false)
                                            else ds[k].(t0 := Wrap(millis))])
    {
      if !td.isOneShot {
        td.t0 := Wrap(millis);
      } else {
        td.isRunning := false;
      }
    }

    /** Taking the oldest timer event: `JNICall_fireTimer` before it calls native code. */
    method FireTimer() returns (tid: Byte)
      requires Valid() && Inv(model) && events != []
      modifies this, timerList
      ensures Valid() && model == Dispatch(old(model)) && tid == old(events)[0]
    {
      DispatchKeepsInv(model);
      tid := events[0];
      var td, k := FindTimer(tid);
      events := events[1..];
      MarkFired(td, k, model.descriptors);
      model := Dispatch(model);
    }

    /** The four getters, `JNICallback_isRunning`, `gett0`, `getdt` and `isOneShot`. */
    method IsRunning(tid: Byte) returns (running: bool)
      requires Valid()
      ensures running == AlarmReports.Reported(model, tid).running
    {
      var td, k := FindTimer(tid);
      return td != null && td.isRunning;
    }

    method GetT0(tid: Byte) returns (t0: Word)
      requires Valid()
      ensures t0 == AlarmReports.Reported(model, tid).t0
    {
      var td, k := FindTimer(tid);
      return if td != null then td.t0 else 0;
    }

    method GetDt(tid: Byte) returns (dt: Word)
      requires Valid()
      ensures dt == AlarmReports.Reported(model, tid).dt
    {
      var td, k := FindTimer(tid);
      return if td != null then td.dt else 0;
    }

    method IsOneShot(tid: Byte) returns (oneshot: bool)
      requires Valid()
      ensures oneshot == AlarmReports.Reported(model, tid).oneshot
    {
      var td, k := FindTimer(tid);
      return td != null && td.isOneShot;
    }
  }
}
