// The debouncer object: the critical sections of Submit, of the timer callback and of Stop,
// updating the fields in place, each proved to be one step of the transition system.
module DebouncerObject {
  import opened History
  import opened Debounce

  class Debouncer {
    // the source's fields; a timer is known by the index of its submission
    var timers: map<string, nat>
    var stopped: bool
    var wg: int

    // the runtime's side: timers, blocked callbacks, waiting Stop calls
    var log: seq<Submission>
    var phase: seq<Phase>
    var waiting: nat

    ghost var returned: bool
    ghost var lost: set<nat>
    ghost var orphaned: map<nat, nat>
    ghost var started: seq<nat>
    ghost var delivered: seq<nat>

    ghost function Abs(): State
      reads this
    {
      State(log, phase, timers, stopped, wg, waiting, returned, lost, orphaned, started, delivered)
    }

    ghost predicate Valid()
      reads this
    {
      Inv(Abs())
    }

    constructor ()
      ensures Valid() && Abs() == INITIAL
    {
      timers, stopped, wg := map[], false, 0;
      log, phase, waiting := [], [], 0;
      returned, lost, orphaned, started, delivered := false, {}, map[], [], [];
      new;
      InitialInv();
    }

    /** Reports whether the timer was stopped before it fired. */
    method StopTimer(t: nat) returns (inTime: bool)
      requires t < |phase|
      modifies this`phase
      ensures inTime == old(phase)[t].Armed?
      ensures phase == if inTime then old(phase)[t := Cancelled] else old(phase)
    {
      inTime := phase[t].Armed?;
      if inTime {
        phase := phase[t := Cancelled];
      }
    }

    method Submit(key: string, event: Notice)
      requires Valid()
      modifies this
      ensures Valid() && Abs() == Next(old(Abs()), Step.Submit(key, event))
    {
      StepKeepsInv(Abs(), Step.Submit(key, event));
      SubmitLocked(key, event);
    }

    method SubmitLocked(key: string, event: Notice)
      requires |phase| == |log| && (key in timers ==> timers[key] < |phase|)
      modifies this
      ensures Abs() == DoSubmit(old(Abs()), key, event)
    {
      if stopped {
        return;
      }
      if key in timers {
        var t := timers[key];
        var inTime := StopTimer(t);
        if !inTime {
          lost := lost + {t};
        }
      }
      log := log + [Labelled(key, event)];
      phase := phase + [Armed];
      timers := timers[key := |log| - 1];
    }

    /** The runtime fires a timer: its callback starts and blocks on the mutex. */
    method Expire(i: nat)
      requires Valid() && i < |phase| && phase[i].Armed?
      modifies this
      ensures Valid() && Abs() == Next(old(Abs()), TimerExpire(i))
    {
      StepKeepsInv(Abs(), TimerExpire(i));
      ghost var after := Next(Abs(), TimerExpire(i));
      phase := phase[i := Expired];
      assert Abs() == after;
    }

    /** The callback's critical section; `publish` says whether it goes on to publishFn. */
    method Callback(i: nat) returns (publish: bool)
      requires Valid() && i < |phase| && phase[i].Expired?
      modifies this
      ensures Valid() && Abs() == Next(old(Abs()), CallbackLock(i))
      ensures publish == !old(stopped)
    {
      StepKeepsInv(Abs(), CallbackLock(i));
      publish := CallbackLocked(i);
    }

    method CallbackLocked(i: nat) returns (publish: bool)
      requires i < |phase| && phase[i].Expired? && i < |log|
      modifies this
      ensures Abs() == DoLock(old(Abs()), i)
      ensures publish == !old(stopped)
    {
      if stopped {
        phase := phase[i := Silenced];
        return false;
      }
      ghost var victim := Victim(Abs(), i);
      if victim.Some? {
        orphaned := orphaned[victim.value := i];
      }
      timers := timers - {log[i].id};
      wg := wg + 1;
      phase := phase[i := Locked];
      publish := true;
    }

    method EnterPublish(i: nat) returns (event: Notice)
      requires Valid() && i < |phase| && phase[i].Locked?
      modifies this
      ensures Valid() && Abs() == Next(old(Abs()), PublishStart(i))
      ensures i < |log| && event == log[i].item
    {
      StepKeepsInv(Abs(), PublishStart(i));
      ghost var after := Next(Abs(), PublishStart(i));
      phase := phase[i := Publishing];
      started := started + [i];
      assert Abs() == after;
      event := log[i].item;
    }

    /** publishFn returned; the deferred Done runs. */
    method LeavePublish(i: nat, ok: bool)
      requires Valid() && i < |phase| && phase[i].Publishing?
      modifies this
      ensures Valid() && Abs() == Next(old(Abs()), PublishEnd(i, ok))
    {
      StepKeepsInv(Abs(), PublishEnd(i, ok));
      ghost var after := Next(Abs(), PublishEnd(i, ok));
      phase := phase[i := Finished];
      if ok {
        delivered := delivered + [i];
      }
      wg := wg - 1;
      assert Abs() == after;
    }

    /** Stop's critical section. */
    method Stop()
      requires Valid()
      modifies this
      ensures Valid() && Abs() == Next(old(Abs()), StopLock)
    {
      StepKeepsInv(Abs(), StopLock);
      StopLocked();
    }

    /** Stops every timer in the map and empties it. */
    method StopLocked()
      requires |phase| == |log|
      requires forall k :: k in timers ==> timers[k] < |log| && log[timers[k]].id == k
      modifies this
      ensures Abs() == DoStop(old(Abs()))
    {
      ghost var before := Abs();
      stopped := true;
      StopTimers();
      waiting := waiting + 1;
      forall i: nat | i < |before.log| ensures phase[i] == DoStop(before).phase[i] {
        assert InMap(before, i) <==> i in before.timers.Values;
      }
      assert phase == DoStop(before).phase;
    }

    method StopTimers()
      requires |phase| == |log|
      requires forall k :: k in timers ==> timers[k] < |log| && log[timers[k]].id == k
      modifies `phase, `timers
      ensures timers == map[] && |phase| == |log|
      ensures forall i: nat :: i < |log| ==>
        phase[i] == if old(phase)[i].Armed? && InMap(old(Abs()), i) then Cancelled else old(phase)[i]
    {
      ghost var was, armed := timers, phase;
      while timers.Keys != {}
        invariant timers.Keys <= was.Keys && forall k :: k in timers ==> timers[k] == was[k]
        invariant |phase| == |log|
        invariant forall i: nat :: i < |log| ==>
          phase[i] == if armed[i].Armed? && log[i].id in was && was[log[i].id] == i && log[i].id !in timers
                      then Cancelled else armed[i]
        decreases timers.Keys
      {
        var key :| key in timers.Keys;
        StopAndForget(key);
      }
    }

    method StopAndForget(key: string)
      requires key in timers && timers[key] < |phase|
      modifies `phase, `timers
      ensures timers == old(timers) - {key}
      ensures |phase| == |old(phase)|
      ensures forall i :: 0 <= i < |phase| ==>
        phase[i] == if i == old(timers)[key] && old(phase)[i].Armed? then Cancelled else old(phase)[i]
    {
      var _ := StopTimer(timers[key]);
      timers := timers - {key};
    }

    /** wg.Wait() lets one Stop call through when no callback is in flight. */
    method WaitReturns()
      requires Valid() && waiting > 0 && wg == 0
      modifies this
      ensures Valid() && Abs() == Next(old(Abs()), StopWaitReturns)
      ensures InFlight(Abs()) == {}
    {
      StepKeepsInv(Abs(), StopWaitReturns);
      ghost var after := Next(Abs(), StopWaitReturns);
      waiting := waiting - 1;
      returned := true;
      assert Abs() == after;
      assert |InFlight(Abs())| == 0;
    }
  }
}
