/** The runtime timers as the imperative component: an array of records updated in place, one
    deferred task and one hardware alarm. Every method is proved against the state machine
    `TimerTable`. */
module RuntimeTimers {
  import opened Words
  import opened TimerTable
  import opened TimerLiveness
  import opened TimerCatchUp

  class RuntimeTimersM {
    const timers: array<RTimer>
    var posted: bool            // updateFromTimer is queued
    var now: Word               // what TimerMilli.getNow returns
    var armed: bool             // the one-shot requested of TimerMilli
    var armedT0: Word
    var armedDt: Word
    ghost var clock: nat        // the same instant as `now`, never wrapping
    ghost var armedAt: nat
    ghost var trace: seq<Observation>

    ghost predicate Valid()
      reads this
    {
      timers.Length == NUM_TIMERS && now == Wrap(clock)
    }

    ghost function State(): (s: Table)
      reads this, timers
    {
      Table(timers[..], posted, if armed then Some(Alarm(armedT0, armedDt, armedAt)) else None, clock, trace)
    }

    constructor (ghost start: nat, visible: Word)
      requires visible == Wrap(start)
      ensures Valid() && fresh(timers) && State() == Initial(start) && Inv(State())
      ensures timers.Length == 128 && !posted && !armed
      ensures forall i :: 0 <= i < 128 ==> !timers[i].iscreated && !timers[i].isrunning
    {
      timers := new RTimer[NUM_TIMERS](_ => RTimer(0, 0, false, false, false));
      posted, armed, armedT0, armedDt, armedAt := false, false, 0, 0, 0;
      now, clock, trace := visible, start, [];
      new;
      for num := 0 to NUM_TIMERS
        invariant Valid() && fresh(timers) && State() == Initial(start)
      {
        timers[num] := timers[num].(iscreated := false);
        timers[num] := timers[num].(isrunning := false);
      }
      InitialInv(start);
    }

    /** Time passing between two statements. */
    method Elapse(span: nat)
      requires Valid()
      modifies this`now, this`clock
      ensures Valid() && State() == old(State()).(clock := old(clock) + span)
    {
      WrapSum(clock, span);
      now := Wrap(now + span);
      clock := clock + span;
    }

    method Create() returns (id: Option<Octet>)
      requires Valid()
      modifies this`trace, timers
      ensures Valid() && State() == CreateTimer(old(State()))
      ensures id.None? ==> timers[..] == old(timers[..]) && forall t <- timers[..] :: t.iscreated
      ensures id.Some? ==>
        && id.value < NUM_TIMERS && !old(timers[..])[id.value].iscreated
        && timers[..] == old(timers[..])[id.value := old(timers[..])[id.value].(iscreated := true)]
    {
      for num := 0 to NUM_TIMERS
        invariant timers[..] == old(timers[..]) && trace == old(trace)
        invariant FreeSlot(timers[..], 0) == FreeSlot(timers[..], num)
      {
        if !timers[num].iscreated {
          timers[num] := timers[num].(iscreated := true);
          trace := trace + [Created(num)];
          return Some(num);
        }
      }
      return None;
    }

    method Destroy(id: Octet) returns (ok: bool)
      requires Valid()
      modifies this`trace, timers
      ensures Valid() && State() == DestroyTimer(old(State()), id)
      ensures ok <==> id < NUM_TIMERS && old(timers[..])[id].iscreated
      ensures ok ==> !timers[id].iscreated && !timers[id].isrunning
    {
      if id > NUM_TIMERS - 1 {
        return false;
      }
      if !timers[id].iscreated {
        return false;
      }
      timers[id] := timers[id].(iscreated := false);
      timers[id] := timers[id].(isrunning := false);
      trace := trace + [Destroyed(id)];
      return true;
    }

    method Start(id: Octet, dt: Word, oneshot: bool) returns (ok: bool)
      requires Valid() && id < NUM_TIMERS
      modifies this`posted, this`trace, timers
      ensures Valid() && State() == StartTimer(old(State()), id, dt, oneshot)
      ensures ok == old(timers[..])[id].iscreated
      ensures ok ==> timers[id] == RTimer(now, dt, true, oneshot, true) && posted
    {
      if !timers[id].iscreated {
        return false;
      }
      timers[id] := timers[id].(isrunning := true);
      timers[id] := timers[id].(t0 := now);
      timers[id] := timers[id].(dt := dt);
      timers[id] := timers[id].(isoneshot := oneshot);
      posted := true;
      trace := trace + [Started(id, clock, dt, oneshot)];
      return true;
    }

    method TimeLeft(id: Octet) returns (left: Option<Word>)
      requires Valid()
      ensures left == GetTimeLeft(State(), id)
    {
      if id > NUM_TIMERS - 1 {
        return None;
      }
      if !timers[id].isrunning {
        return None;
      }
      WrapDifference(clock, timers[id].t0);
      var elapsed := Wrap(now - timers[id].t0);
      var remaining := Signed(Wrap(timers[id].dt - elapsed));
      return if remaining < 0 then Some(0) else Some(remaining);
    }

    /** The client's `fired` handler, as the sequence of calls it makes back into the component. */
    method RunHandler(script: seq<Command>)
      requires Valid() && AllInRange(script)
      modifies this, timers
      ensures Valid() && State() == Handle(old(State()), script)
    {
      ghost var goal := Handle(State(), script);
      for j := 0 to |script|
        invariant Valid()
        invariant Handle(State(), script[j..]) == goal
      {
        assert script[j..][0] == script[j] && script[j..][1..] == script[j + 1..];
        match script[j]
        case Create => var _ := Create();
        case Destroy(id) => var _ := Destroy(id);
        case Start(id, dt, oneshot) => var _ := Start(id, dt, oneshot);
        case Elapse(span) => Elapse(span);
      }
    }

    /** A due slot is stopped or moved one period on, and its client is signalled. */
    method ExpireSlot(num: nat)
      requires Valid() && num < NUM_TIMERS
      modifies this`trace, timers
      ensures Valid() && State() == Expire(old(State()), num)
    {
      if timers[num].isoneshot {
        timers[num] := timers[num].(isrunning := false);
      } else {
        timers[num] := timers[num].(t0 := Wrap(timers[num].t0 + timers[num].dt));
      }
      trace := trace + [Fired(num, clock)];
    }

    method FireTimers(sampled: Word, script: seq<Command>)
      requires Valid() && AllInRange(script)
      modifies this, timers
      ensures Valid() && State() == TimerTable.FireTimers(old(State()), sampled, script)
    {
      ghost var s := State();
      var num := 0;
      while num < NUM_TIMERS
        invariant 0 <= num <= NUM_TIMERS && Valid() && State() == s
        invariant FirstDue(s.timers, sampled, 0) == FirstDue(s.timers, sampled, num)
      {
        if timers[num].isrunning {
          var elapsed := Wrap(sampled - timers[num].t0);
          if elapsed >= timers[num].dt {
            ExpireSlot(num);
            RunHandler(script);
            posted := true;
            return;
          }
        }
        num := num + 1;
      }
      posted := true;
    }

    /** Time left of a slot as the task computes it, negative when late. */
    method RemainingOf(num: nat, sampled: Word) returns (remaining: int)
      requires Valid() && num < NUM_TIMERS
      ensures remaining == Remaining(timers[num], sampled)
    {
      var elapsed := Wrap(sampled - timers[num].t0);
      remaining := Signed(Wrap(timers[num].dt - elapsed));
    }

    /** The loop of the task: the least signed remainder, and whether any timer set it. */
    method ScanRemaining(sampled: Word) returns (minRemaining: int, isSet: bool)
      requires Valid()
      ensures minRemaining == MinRemaining(timers[..], sampled, NUM_TIMERS)
      ensures isSet <==> minRemaining < MAX_INT32
    {
      minRemaining := MAX_INT32;
      isSet := false;
      ghost var ts := timers[..];
      for num := 0 to NUM_TIMERS
        invariant minRemaining == MinRemaining(ts, sampled, num)
        invariant isSet <==> minRemaining < MAX_INT32
      {
        assert ts[num] == timers[num];
        MinRemainingNext(ts, sampled, num);
        if timers[num].isrunning {
          var remaining := RemainingOf(num, sampled);
          if remaining < minRemaining {
            minRemaining := remaining;
            isSet := true;
          }
        }
      }
    }

    /** `TimerMilli.startOneShotAt`. */
    method Arm(t0: Word, dt: Word, ghost at: nat)
      requires Valid()
      modifies this`armed, this`armedT0, this`armedDt, this`armedAt
      ensures Valid() && State() == old(State()).(alarm := Some(Alarm(t0, dt, at)))
    {
      armed, armedT0, armedDt, armedAt := true, t0, dt, at;
    }

    /** The first half of the task: the alarm is stopped and the table scanned. */
    method StopAndScan(lag: nat) returns (sampled: Word, minRemaining: int, isSet: bool)
      requires Valid()
      modifies this`posted, this`armed, this`now, this`clock
      ensures Valid() && sampled == Wrap(old(clock))
      ensures State() == old(State()).(posted := false, alarm := None, clock := old(clock) + lag)
      ensures minRemaining == MinRemaining(old(State()).timers, sampled, NUM_TIMERS)
      ensures isSet <==> minRemaining < MAX_INT32
    {
      posted := false;
      sampled := now;
      armed := false;   // TimerMilli.stop()
      minRemaining, isSet := ScanRemaining(sampled);
      Elapse(lag);
    }

    /** The second half: the table is served when a timer is late, else the alarm is armed. */
    method ServeOrArm(sampled: Word, minRemaining: int, isSet: bool, ghost from: nat, script: seq<Command>)
      requires Valid() && AllInRange(script) && sampled == Wrap(from)
      requires minRemaining <= MAX_INT32 && (isSet <==> minRemaining < MAX_INT32)
      modifies this, timers
      ensures Valid() && State() == Served(old(State()), from, minRemaining, script)
    {
      if isSet {
        if minRemaining <= 0 {
          FireTimers(sampled, script);
        } else {
          Arm(sampled, minRemaining, from + minRemaining);
        }
      }
    }

    method UpdateFromTimer(lag: nat, script: seq<Command>)
      requires Valid() && AllInRange(script)
      modifies this, timers
      ensures Valid() && State() == Update(old(State()), lag, script)
    {
      ghost var s := State();
      var sampled, minRemaining, isSet := StopAndScan(lag);
      UpdateIsServed(s, lag, script, State(), minRemaining);
      ServeOrArm(sampled, minRemaining, isSet, s.clock, script);
    }

    /** The hardware alarm's event; a genuine firing spends the armed one-shot. */
    method TimerMilliFired(genuine: bool, lag: nat, script: seq<Command>)
      requires Valid() && AllInRange(script)
      modifies this, timers
      ensures Valid() && State() == Step(old(State()), Hardware(genuine, lag, script))
    {
      var sampled := now;
      if genuine {
        armed := false;
      }
      Elapse(lag);
      FireTimers(sampled, script);
    }

    /** `while (runNextTask())` with handlers that call nothing back: it ends, and when it does
        every timer has been signalled exactly as often as it was owed. */
    method CompleteTasks()
      requires Valid() && Settling(State()) && PositivePeriods(State()) && Covered(State())
      modifies this, timers
      ensures Valid() && Inv(State()) && !posted && Covered(State()) && clock == old(clock)
      ensures !old(posted) ==> State() == old(State())
      ensures old(posted) ==> forall i :: 0 <= i < NUM_TIMERS ==>
        && Activities(State(), i) == Settled(old(Activities(State(), i)), clock)
        && Firings(trace, i) == old(Firings(trace, i)) + Owed(old(Activities(State(), i)), clock)
    {
      ghost var s := State();
      if posted {
        DrainSettles(s);
      }
      while posted
        invariant Valid() && clock == old(clock)
        invariant posted ==> Settling(State()) && PositivePeriods(State()) && Drain(State()) == Drain(s)
        invariant !posted ==> if old(posted) then State() == Drain(s) else State() == s
        decreases posted, if posted then TotalOwed(State(), NUM_TIMERS) else 0
      {
        PassiveUpdate(State());
        if TotalOwed(State(), NUM_TIMERS) > 0 {
          PassiveFiring(State());
        }
        UpdateFromTimer(0, []);
      }
    }
  }
}
