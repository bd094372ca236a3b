// The debouncer as a transition system: every atomic step of Submit, of the timers, of
// their callbacks and of Stop, in any interleaving.
module Debounce {
  import opened Wrappers
  import opened History

  /** Where one accepted submission's timer has got to. */
  datatype Phase =
    | Armed        // the timer is running
    | Expired      // it fired; its callback waits for the mutex
    | Locked       // past the mutex and counted by the WaitGroup; publishFn not yet entered
    | Publishing   // inside publishFn
    | Finished     // publishFn returned
    | Cancelled    // timer.Stop() was in time
    | Silenced     // the callback found the debouncer stopped

  /** A submitted event, labelled with the key it was submitted under. */
  type Submission = Labelled<Notice>

  datatype State = State(
    log: seq<Submission>,      // accepted submissions, oldest first
    phase: seq<Phase>,         // phase[i] belongs to log[i]
    timers: map<string, nat>,  // the debouncer's map: key to submission
    stopped: bool,
    wg: int,                   // WaitGroup count
    waiting: nat,              // Stop calls that released the mutex and wait
    returned: bool,            // some Stop call has returned
    lost: set<nat>,            // timers whose Stop() came too late in some Submit
    orphaned: map<nat, nat>,   // timers that lost their map entry, each to the callback of another
    started: seq<nat>,         // entries of publishFn, in order
    delivered: seq<nat>        // returns of publishFn with the event delivered, in order
  )

  const INITIAL := State([], [], map[], false, 0, 0, false, {}, map[], [], [])

  datatype Step =
    | Submit(key: string, event: Notice)
    | TimerExpire(i: nat)
    | CallbackLock(i: nat)
    | PublishStart(i: nat)
    | PublishEnd(i: nat, ok: bool)
    | StopLock
    | StopWaitReturns

  predicate Is(s: State, i: nat, p: Phase) {
    i < |s.phase| && s.phase[i] == p
  }

  predicate Enabled(s: State, step: Step) {
    match step
    case Submit(_, _) => true
    case TimerExpire(i) => Is(s, i, Armed)
    case CallbackLock(i) => Is(s, i, Expired) && i < |s.log|
    case PublishStart(i) => Is(s, i, Locked)
    case PublishEnd(i, _) => Is(s, i, Publishing)
    case StopLock => true
    case StopWaitReturns => s.waiting > 0 && s.wg == 0
  }

  function Cancel(s: State, i: nat): State {
    if Is(s, i, Armed) then s.(phase := s.phase[i := Cancelled])
    else s.(lost := s.lost + {i})
  }

  function Arm(s: State, key: string, event: Notice): State {
    s.(log := s.log + [Labelled(key, event)],
       phase := s.phase + [Armed],
       timers := s.timers[key := |s.log|])
  }

  function DoSubmit(s: State, key: string, event: Notice): State {
    if s.stopped then s
    else Arm(if key in s.timers then Cancel(s, s.timers[key]) else s, key, event)
  }

  /** The timer whose map entry the callback of timer i deletes, if that is not its own. */
  function Victim(s: State, i: nat): Option<nat>
    requires i < |s.log|
  {
    var k := s.log[i].id;
    if k in s.timers && s.timers[k] != i then Some(s.timers[k]) else None
  }

  function DoLock(s: State, i: nat): State
    requires Is(s, i, Expired) && i < |s.log|
  {
    if s.stopped then s.(phase := s.phase[i := Silenced])
    else
      s.(phase := s.phase[i := Locked], timers := s.timers - {s.log[i].id}, wg := s.wg + 1,
         orphaned := if Victim(s, i).Some? then s.orphaned[Victim(s, i).value := i] else s.orphaned)
  }

  function DoStop(s: State): State {
    s.(stopped := true,
       phase := seq(|s.phase|, i requires 0 <= i < |s.phase| =>
                      if s.phase[i] == Armed && i in s.timers.Values then Cancelled else s.phase[i]),
       timers := map[],
       waiting := s.waiting + 1)
  }

  function Next(s: State, step: Step): State
    requires Enabled(s, step)
  {
    match step
    case Submit(k, e) => DoSubmit(s, k, e)
    case TimerExpire(i) => s.(phase := s.phase[i := Expired])
    case CallbackLock(i) => DoLock(s, i)
    case PublishStart(i) => s.(phase := s.phase[i := Publishing], started := s.started + [i])
    case PublishEnd(i, ok) =>
      s.(phase := s.phase[i := Finished], wg := s.wg - 1,
         delivered := if ok then s.delivered + [i] else s.delivered)
    case StopLock => DoStop(s)
    case StopWaitReturns => s.(waiting := s.waiting - 1, returned := true)
  }

  // ---- the invariant ------------------------------------------------------------------

  ghost predicate Shape(s: State) {
    |s.phase| == |s.log|
  }

  /** No later submission has the same key. */
  ghost predicate Newest(s: State, i: nat) {
    i < |s.log| && forall j :: i < j < |s.log| ==> s.log[j].id != s.log[i].id
  }

  ghost predicate Pending(p: Phase) {
    p.Armed? || p.Expired?
  }

  ghost predicate Flying(p: Phase) {
    p.Locked? || p.Publishing?
  }

  ghost predicate Ran(p: Phase) {
    Flying(p) || p.Finished?
  }

  ghost predicate InMap(s: State, i: nat) {
    i < |s.log| && s.log[i].id in s.timers && s.timers[s.log[i].id] == i
  }

  /** A map entry is the newest submission of its key, and its callback has not run. */
  ghost predicate MapIsNewest(s: State) {
    forall k :: k in s.timers ==>
      && s.timers[k] < |s.phase| && s.timers[k] < |s.log|
      && s.log[s.timers[k]].id == k
      && Newest(s, s.timers[k])
      && Pending(s.phase[s.timers[k]])
  }

  ghost function InFlight(s: State): set<nat> {
    set i: nat | i < |s.phase| && Flying(s.phase[i])
  }

  ghost predicate Counted(s: State) {
    s.wg == |InFlight(s)|
  }

  ghost predicate StopHeld(s: State) {
    && (s.waiting > 0 || s.returned ==> s.stopped)
    && (s.stopped ==> s.timers == map[])
    && (s.returned ==> s.wg == 0)
  }

  /** Until Stop, the newest submission of a key is never dropped. */
  ghost predicate NewestAlive(s: State) {
    !s.stopped ==> forall i: nat {:trigger Newest(s, i)} :: Newest(s, i) && i < |s.phase| ==>
      Pending(s.phase[i]) || Ran(s.phase[i])
  }

  /**
   * i's timer had fired before a Submit tried to stop it, or the callback that deleted i's map
   * entry was itself one of an older such timer.
   */
  ghost predicate Downstream(s: State, i: nat) {
    || i in s.lost
    || (i in s.orphaned && s.orphaned[i] < i && Downstream(s, s.orphaned[i]))
  }

  /** Until Stop, the timers that can still run but are not in the map are those, and no others. */
  ghost predicate StraysEscaped(s: State) {
    !s.stopped ==> forall i: nat :: i < |s.phase| && Pending(s.phase[i]) && !InMap(s, i) ==> Downstream(s, i)
  }

  /** An orphan lost its entry to a callback of its key that has run, and does not get it back. */
  ghost predicate OrphansSettled(s: State) {
    forall i :: i in s.orphaned ==>
      && i < |s.log| && i < |s.phase| && !InMap(s, i)
      && s.orphaned[i] < i && Ran(s.phase[s.orphaned[i]]) && s.log[s.orphaned[i]].id == s.log[i].id
  }

  ghost predicate LostAreSuperseded(s: State) {
    forall r :: r in s.lost ==> r < |s.phase| && !Newest(s, r) && !s.phase[r].Armed? && !s.phase[r].Cancelled?
  }

  ghost predicate Distinct(q: seq<nat>) {
    forall a, b :: 0 <= a < b < |q| ==> q[a] != q[b]
  }

  ghost predicate PublishedOnce(s: State) {
    && Distinct(s.started) && Distinct(s.delivered)
    && (forall i: nat :: i in s.started <==> i < |s.phase| && (s.phase[i].Publishing? || s.phase[i].Finished?))
    && (forall i: nat :: i in s.delivered ==> i < |s.phase| && s.phase[i].Finished?)
  }

  ghost predicate Inv(s: State) {
    && Shape(s) && MapIsNewest(s) && Counted(s) && StopHeld(s)
    && NewestAlive(s) && StraysEscaped(s) && OrphansSettled(s) && LostAreSuperseded(s) && PublishedOnce(s)
  }

  lemma InitialInv()
    ensures Inv(INITIAL)
  {
    assert InFlight(INITIAL) == {};
  }

  // ---- each step keeps it -------------------------------------------------------------

  /** Steps after which the same callbacks are in flight and have published. */
  lemma CountsStay(s: State, t: State)
    requires t.wg == s.wg && t.started == s.started && t.delivered == s.delivered
    requires |s.phase| <= |t.phase|
    requires forall i: nat :: i < |s.phase| && (Ran(s.phase[i]) || Ran(t.phase[i])) ==> t.phase[i] == s.phase[i]
    requires forall i: nat :: |s.phase| <= i < |t.phase| ==> !Ran(t.phase[i])
    requires Counted(s) && PublishedOnce(s)
    ensures Counted(t) && PublishedOnce(t)
  {
    assert InFlight(t) == InFlight(s);
  }

  /** Steps that leave log, map and stop flag alone and only move a timer or callback forward. */
  lemma TimersStay(s: State, t: State)
    requires Shape(s) && MapIsNewest(s) && NewestAlive(s) && LostAreSuperseded(s)
    requires StraysEscaped(s) && OrphansSettled(s)
    requires t.log == s.log && t.timers == s.timers && t.lost == s.lost && t.orphaned == s.orphaned
    requires t.stopped == s.stopped && |t.phase| == |s.phase|
    requires forall i: nat :: i < |t.phase| ==>
               && (Pending(t.phase[i]) <==> Pending(s.phase[i]))
               && (Ran(s.phase[i]) ==> Ran(t.phase[i]))
               && (t.phase[i].Armed? || t.phase[i].Cancelled? ==> t.phase[i] == s.phase[i])
    ensures Shape(t) && MapIsNewest(t) && NewestAlive(t) && LostAreSuperseded(t)
    ensures StraysEscaped(t) && OrphansSettled(t)
  {
    assert forall i: nat :: Newest(t, i) <==> Newest(s, i);
    if !t.stopped {
      forall i: nat | i < |t.phase| && Pending(t.phase[i]) && !InMap(t, i) ensures Downstream(t, i) {
        assert !InMap(s, i);
        DownstreamStays(s, t, i);
      }
    }
  }

  /** Everything an accepted Submit does, field by field. */
  ghost predicate Accepts(s: State, t: State, key: string) {
    && |t.log| == |s.log| + 1 && t.log[|s.log|].id == key
    && (forall i :: 0 <= i < |s.log| ==> t.log[i] == s.log[i])
    && |t.phase| == |s.phase| + 1 && t.phase[|s.phase|].Armed?
    && (forall i: nat :: i < |s.phase| ==> t.phase[i] == if Stops(s, key, i) then Cancelled else s.phase[i])
    && t.timers == s.timers[key := |s.log|]
    && t.lost == s.lost + (if Tardy(s, key) then {s.timers[key]} else {})
    && t == t.(log := t.log, stopped := s.stopped, wg := s.wg, waiting := s.waiting, returned := s.returned,
               orphaned := s.orphaned, started := s.started, delivered := s.delivered)
  }

  /** Submit stops this timer: it is the key's entry, and still armed. */
  ghost predicate Stops(s: State, key: string, i: nat) {
    key in s.timers && i == s.timers[key] && Is(s, i, Armed)
  }

  /** The timer to be replaced has fired already. */
  ghost predicate Tardy(s: State, key: string) {
    key in s.timers && !Is(s, s.timers[key], Armed)
  }

  lemma SubmitAccepts(s: State, key: string, event: Notice)
    requires !s.stopped
    ensures Accepts(s, DoSubmit(s, key, event), key)
  {
  }

  lemma NewestAfter(s: State, t: State, key: string, i: nat)
    requires Accepts(s, t, key)
    ensures Newest(t, i) <==> i == |s.log| || (Newest(s, i) && s.log[i].id != key)
  {
  }

  lemma NewestAfterSubmit(s: State, key: string, event: Notice, i: nat)
    requires !s.stopped
    ensures var t := DoSubmit(s, key, event);
            Newest(t, i) <==> i == |s.log| || (Newest(s, i) && s.log[i].id != key)
  {
    SubmitAccepts(s, key, event);
    NewestAfter(s, DoSubmit(s, key, event), key, i);
  }

  lemma SubmitKeepsMap(s: State, t: State, key: string)
    requires Shape(s) && MapIsNewest(s) && Accepts(s, t, key)
    ensures Shape(t) && MapIsNewest(t)
  {
    forall k | k in t.timers ensures Newest(t, t.timers[k]) {
      NewestAfter(s, t, key, t.timers[k]);
    }
  }

  lemma SubmitKeepsNewest(s: State, t: State, key: string)
    requires Shape(s) && MapIsNewest(s) && NewestAlive(s) && LostAreSuperseded(s) && Accepts(s, t, key)
    ensures NewestAlive(t) && LostAreSuperseded(t)
  {
    forall i: nat ensures Newest(t, i) <==> i == |s.log| || (Newest(s, i) && s.log[i].id != key) {
      NewestAfter(s, t, key, i);
    }
  }

  /** Once an entry has been lost, how it was lost is settled. */
  lemma {:induction false} DownstreamStays(s: State, t: State, i: nat)
    requires s.lost <= t.lost && Downstream(s, i)
    requires forall j :: j in s.orphaned ==> j in t.orphaned && t.orphaned[j] == s.orphaned[j]
    ensures Downstream(t, i)
    decreases i
  {
    if i !in s.lost {
      DownstreamStays(s, t, s.orphaned[i]);
    }
  }

  lemma SubmitKeepsStrays(s: State, t: State, key: string)
    requires Shape(s) && MapIsNewest(s) && StraysEscaped(s) && Accepts(s, t, key) && !s.stopped
    ensures StraysEscaped(t)
  {
    forall i: nat | i < |t.phase| && Pending(t.phase[i]) && !InMap(t, i) ensures Downstream(t, i) {
      if InMap(s, i) {
        assert s.log[i].id == key && Tardy(s, key);
      } else {
        DownstreamStays(s, t, i);
      }
    }
  }

  lemma SubmitKeepsOrphans(s: State, t: State, key: string)
    requires Shape(s) && OrphansSettled(s) && Accepts(s, t, key)
    ensures OrphansSettled(t)
  {
    forall i | i in t.orphaned ensures !InMap(t, i) {
      assert !InMap(s, i);
    }
  }

  lemma SubmitKeeps(s: State, key: string, event: Notice)
    requires Inv(s) && !s.stopped
    ensures Inv(DoSubmit(s, key, event))
  {
    var t := DoSubmit(s, key, event);
    SubmitAccepts(s, key, event);
    SubmitKeepsMap(s, t, key);
    SubmitKeepsNewest(s, t, key);
    SubmitKeepsStrays(s, t, key);
    SubmitKeepsOrphans(s, t, key);
    CountsStay(s, t);
  }

  lemma ExpireKeeps(s: State, i: nat)
    requires Inv(s) && Is(s, i, Armed)
    ensures Inv(Next(s, TimerExpire(i)))
  {
    var t := Next(s, TimerExpire(i));
    CountsStay(s, t);
    TimersStay(s, t);
  }

  lemma LockKeepsMap(s: State, i: nat)
    requires Shape(s) && MapIsNewest(s) && NewestAlive(s) && LostAreSuperseded(s)
    requires Is(s, i, Expired) && !s.stopped
    ensures var t := DoLock(s, i); Shape(t) && MapIsNewest(t) && NewestAlive(t) && LostAreSuperseded(t)
  {
    var t := DoLock(s, i);
    assert forall j: nat :: Newest(t, j) <==> Newest(s, j);
  }

  /** One more callback is in flight. */
  lemma JoinsFlight(s: State, t: State, i: nat)
    requires Counted(s) && PublishedOnce(s) && Is(s, i, Expired)
    requires t.phase == s.phase[i := Locked] && t.wg == s.wg + 1
    requires t.started == s.started && t.delivered == s.delivered
    ensures Counted(t) && PublishedOnce(t)
  {
    assert InFlight(t) == InFlight(s) + {i} && i !in InFlight(s);
  }

  lemma VictimIsNewer(s: State, i: nat)
    requires Shape(s) && MapIsNewest(s) && i < |s.log|
    ensures Victim(s, i).Some? ==>
              var j := Victim(s, i).value;
              i < j < |s.log| && s.log[j].id == s.log[i].id && InMap(s, j) && !InMap(s, i)
  {
    if Victim(s, i).Some? {
      assert Newest(s, Victim(s, i).value);
    }
  }

  lemma LockKeepsOrphans(s: State, i: nat)
    requires Shape(s) && MapIsNewest(s) && OrphansSettled(s) && Is(s, i, Expired) && !s.stopped
    ensures OrphansSettled(DoLock(s, i))
  {
    VictimIsNewer(s, i);
  }

  /** The callback may take away the entry of a newer timer: the race to keep track of. */
  lemma LockKeepsStrays(s: State, i: nat)
    requires Shape(s) && MapIsNewest(s) && StraysEscaped(s) && OrphansSettled(s)
    requires Is(s, i, Expired) && !s.stopped
    ensures StraysEscaped(DoLock(s, i))
  {
    var t := DoLock(s, i);
    VictimIsNewer(s, i);
    forall j: nat | j < |t.phase| && Pending(t.phase[j]) && !InMap(t, j) ensures Downstream(t, j) {
      if !InMap(s, j) {
        DownstreamStays(s, t, j);
      } else {
        assert Victim(s, i) == Some(j) && i < j && !InMap(s, i);
        DownstreamStays(s, t, i);
      }
    }
  }

  lemma SilenceKeeps(s: State, i: nat)
    requires Inv(s) && Is(s, i, Expired) && s.stopped
    ensures Inv(DoLock(s, i))
  {
    var t := DoLock(s, i);
    CountsStay(s, t);
    assert forall j: nat :: Newest(t, j) <==> Newest(s, j);
  }

  lemma PublishStartKeeps(s: State, i: nat)
    requires Inv(s) && Is(s, i, Locked)
    ensures Inv(Next(s, PublishStart(i)))
  {
    var t := Next(s, PublishStart(i));
    assert InFlight(t) == InFlight(s);
    TimersStay(s, t);
  }

  lemma PublishEndKeeps(s: State, i: nat, ok: bool)
    requires Inv(s) && Is(s, i, Publishing)
    ensures Inv(Next(s, PublishEnd(i, ok)))
  {
    var t := Next(s, PublishEnd(i, ok));
    assert InFlight(t) == InFlight(s) - {i} && i in InFlight(s);
    TimersStay(s, t);
  }

  lemma StopKeeps(s: State)
    requires Inv(s)
    ensures Inv(DoStop(s))
  {
    var t := DoStop(s);
    CountsStay(s, t);
    StopKeepsOrphans(s);
  }

  lemma StopKeepsOrphans(s: State)
    requires Shape(s) && MapIsNewest(s) && OrphansSettled(s) && LostAreSuperseded(s)
    ensures OrphansSettled(DoStop(s)) && LostAreSuperseded(DoStop(s))
  {
    var t := DoStop(s);
    forall r | r in s.lost ensures !Newest(t, r) && t.phase[r] == s.phase[r] {
      assert !Newest(s, r);
    }
  }

  lemma StepKeepsInv(s: State, step: Step)
    requires Inv(s) && Enabled(s, step)
    ensures Inv(Next(s, step))
  {
    match step
    case Submit(k, e) =>
      if !s.stopped {
        SubmitKeeps(s, k, e);
      }
    case TimerExpire(i) => ExpireKeeps(s, i);
    case CallbackLock(i) =>
      if s.stopped {
        SilenceKeeps(s, i);
      } else {
        LockKeepsMap(s, i);
        JoinsFlight(s, DoLock(s, i), i);
        LockKeepsStrays(s, i);
        LockKeepsOrphans(s, i);
      }
    case PublishStart(i) => PublishStartKeeps(s, i);
    case PublishEnd(i, ok) => PublishEndKeeps(s, i, ok);
    case StopLock => StopKeeps(s);
    case StopWaitReturns =>
      CountsStay(s, Next(s, step));
      TimersStay(s, Next(s, step));
  }

  // ---- runs ------------------------------------------------------------------------------

  predicate Legal(s: State, steps: seq<Step>)
    decreases |steps|
  {
    steps == [] || (Enabled(s, steps[0]) && Legal(Next(s, steps[0]), steps[1..]))
  }

  function Run(s: State, steps: seq<Step>): State
    requires Legal(s, steps)
    decreases |steps|
  {
    if steps == [] then s else Run(Next(s, steps[0]), steps[1..])
  }

  lemma {:induction false} RunKeepsInv(s: State, steps: seq<Step>)
    requires Inv(s) && Legal(s, steps)
    ensures Inv(Run(s, steps))
    decreases |steps|
  {
    if steps != [] {
      StepKeepsInv(s, steps[0]);
      RunKeepsInv(Next(s, steps[0]), steps[1..]);
    }
  }

  /** Once stopped, the WaitGroup only counts down; it always counts the callbacks in flight. */
  lemma {:induction false} WaitGroupOnlyFalls(s: State, steps: seq<Step>)
    requires Inv(s) && s.stopped && Legal(s, steps)
    ensures var t := Run(s, steps);
            t.stopped && t.wg <= s.wg && t.wg == |InFlight(t)| && InFlight(t) <= InFlight(s) && t.log == s.log
    decreases |steps|
  {
    if steps != [] {
      StepKeepsInv(s, steps[0]);
      var n := Next(s, steps[0]);
      assert InFlight(n) <= InFlight(s);
      WaitGroupOnlyFalls(n, steps[1..]);
    }
  }

  /** Once Stop has returned, no publish is running and none ever starts again. */
  lemma {:induction false} QuietAfterStop(s: State, steps: seq<Step>)
    requires Inv(s) && s.returned && Legal(s, steps)
    ensures var t := Run(s, steps);
            InFlight(t) == {} && t.started == s.started && t.delivered == s.delivered
    decreases |steps|
  {
    if steps == [] {
    } else {
      StepKeepsInv(s, steps[0]);
      var n := Next(s, steps[0]);
      assert forall i: nat :: Is(s, i, Locked) || Is(s, i, Publishing) ==> i in InFlight(s);
      assert n.returned && s.wg == 0;
      assert InFlight(s) == {};
      QuietAfterStop(n, steps[1..]);
    }
  }

  /**
   * For every run: the map holds newest submissions only, none of those is ever dropped
   * before Stop, the WaitGroup counts the callbacks in flight, nothing is published twice.
   */
  lemma EveryRunIsCoalesced(steps: seq<Step>)
    requires Legal(INITIAL, steps)
    ensures var s := Run(INITIAL, steps);
            && MapIsNewest(s) && NewestAlive(s) && Counted(s) && PublishedOnce(s)
            && StopHeld(s) && StraysEscaped(s) && OrphansSettled(s) && LostAreSuperseded(s)
  {
    InitialInv();
    RunKeepsInv(INITIAL, steps);
  }

  // ---- superseded events -----------------------------------------------------------------

  /** Until Stop, a timer that can still run is out of the map exactly when the race took it out. */
  lemma StrayIff(s: State, i: nat)
    requires Inv(s) && !s.stopped && i < |s.phase| && Pending(s.phase[i])
    ensures InMap(s, i) <==> !Downstream(s, i)
  {
  }

  /**
   * A callback that is about to publish something other than the newest submission of its
   * key is downstream of a timer that had expired before a Submit tried to stop it.
   */
  lemma SupersededOnlyAfterRace(s: State, i: nat)
    requires Inv(s) && !s.stopped && Is(s, i, Expired) && !Newest(s, i)
    ensures Downstream(s, i)
  {
    StrayIff(s, i);
  }

  /** Conversely, whatever happens next, neither Submit nor Stop stops such a timer. */
  lemma {:induction false} StraysCannotBeStopped(s: State, steps: seq<Step>, i: nat)
    requires Inv(s) && i < |s.phase| && Pending(s.phase[i]) && Downstream(s, i)
    requires Legal(s, steps) && CallbackLock(i) !in steps
    ensures i < |Run(s, steps).phase| && Pending(Run(s, steps).phase[i])
    decreases |steps|
  {
    if steps != [] {
      StrayStays(s, steps[0], i);
      StepKeepsInv(s, steps[0]);
      StraysCannotBeStopped(Next(s, steps[0]), steps[1..], i);
    }
  }

  lemma StrayStays(s: State, step: Step, i: nat)
    requires Inv(s) && i < |s.phase| && Pending(s.phase[i]) && Downstream(s, i)
    requires Enabled(s, step) && step != CallbackLock(i)
    ensures var t := Next(s, step); i < |t.phase| && Pending(t.phase[i]) && Downstream(t, i)
  {
    var t := Next(s, step);
    assert !InMap(s, i);
    assert Pending(t.phase[i]);
    OrphansOnlyGrow(s, step);
    DownstreamStays(s, t, i);
  }

  lemma OrphansOnlyGrow(s: State, step: Step)
    requires Inv(s) && Enabled(s, step)
    ensures var t := Next(s, step);
            && s.lost <= t.lost
            && forall j :: j in s.orphaned ==> j in t.orphaned && t.orphaned[j] == s.orphaned[j]
  {
    if step.CallbackLock? && Victim(s, step.i).Some? {
      assert InMap(s, Victim(s, step.i).value);
    }
  }

  /**
   * Stop's critical section cancels exactly the armed timers the race has not taken out of the
   * map, changes no other timer or callback, and no submission is accepted after it.
   */
  lemma StopCancels(s: State, i: nat)
    requires Inv(s) && !s.stopped && i < |s.phase|
    ensures var t := Next(s, StopLock);
      && t.stopped && t.timers == map[] && t.log == s.log && |t.phase| == |s.phase|
      && t.wg == s.wg && t.waiting == s.waiting + 1
      && (s.phase[i].Armed? && !Downstream(s, i) ==> t.phase[i].Cancelled?)
      && (s.phase[i].Armed? && Downstream(s, i) ==> t.phase[i].Armed?)
      && (!s.phase[i].Armed? ==> t.phase[i] == s.phase[i])
      && forall k, e :: Next(t, Submit(k, e)) == t
  {
    if s.phase[i].Armed? {
      StrayIff(s, i);
      assert InMap(s, i) <==> i in s.timers.Values;
    }
  }

  /**
   * A callback that goes on to publish deletes the entry of its key, whoever's it is, and no
   * other. The next Submit of the key therefore finds nothing to stop.
   */
  lemma CallbackClearsKey(s: State, i: nat, e: Notice)
    requires Inv(s) && Is(s, i, Expired) && !s.stopped
    ensures var t, k := Next(s, CallbackLock(i)), s.log[i].id;
      && Is(t, i, Locked) && t.wg == s.wg + 1 && t.log == s.log
      && k !in t.timers
      && (forall key :: key != k ==> (key in t.timers <==> key in s.timers))
      && (forall key :: key in t.timers ==> t.timers[key] == s.timers[key])
      && (forall j :: 0 <= j < |s.phase| && j != i ==> t.phase[j] == s.phase[j])
      && var u := Next(t, Submit(k, e)); u.phase == t.phase + [Armed] && u.lost == t.lost
  {
  }

  /** Stop always gets to return: it only has to wait for the publishes in flight to end. */
  lemma {:induction false} StopCanReturn(s: State) returns (steps: seq<Step>)
    requires Inv(s) && s.waiting > 0
    ensures Legal(s, steps) && Run(s, steps).returned
    ensures forall step :: step in steps ==> step.PublishStart? || step.PublishEnd? || step.StopWaitReturns?
    decreases 2 * |InFlight(s)| + |Unstarted(s)|
  {
    if InFlight(s) == {} {
      steps := [StopWaitReturns];
      Unroll(s, steps);
      assert steps[1..] == [];
    } else {
      var i: nat :| i in InFlight(s);
      var step := if s.phase[i].Locked? then PublishStart(i) else PublishEnd(i, true);
      var next := Next(s, step);
      StepKeepsInv(s, step);
      FlightShrinks(s, next, i);
      var rest := StopCanReturn(next);
      steps := [step] + rest;
      assert steps[1..] == rest;
      Unroll(s, steps);
    }
  }

  ghost function Unstarted(s: State): set<nat> {
    set i: nat | i < |s.phase| && s.phase[i].Locked?
  }

  lemma FlightShrinks(s: State, t: State, i: nat)
    requires i in InFlight(s)
    requires t.phase == s.phase[i := if s.phase[i].Locked? then Publishing else Finished]
    ensures 2 * |InFlight(t)| + |Unstarted(t)| < 2 * |InFlight(s)| + |Unstarted(s)|
  {
    if s.phase[i].Locked? {
      assert InFlight(t) == InFlight(s);
      assert Unstarted(t) == Unstarted(s) - {i} && i in Unstarted(s);
    } else {
      assert InFlight(t) == InFlight(s) - {i};
      assert Unstarted(t) == Unstarted(s);
    }
  }

  // ---- exactly when only the newest submission of a key can fire ---------------------------

  /** A Submit of this key finds the timer it replaces no longer armed: its Stop() comes too late. */
  ghost predicate Late(s: State, step: Step, key: string) {
    step.Submit? && step.key == key && !s.stopped && Tardy(s, key)
  }

  ghost predicate NeverLate(s: State, steps: seq<Step>, key: string)
    requires Legal(s, steps)
    decreases |steps|
  {
    steps == [] || (!Late(s, steps[0], key) && NeverLate(Next(s, steps[0]), steps[1..], key))
  }

  /** Every callback of this key that may publish next would publish the newest submission. */
  ghost predicate FiresNewest(s: State, key: string) {
    forall i: nat :: Is(s, i, Expired) && i < |s.log| && s.log[i].id == key ==> Newest(s, i)
  }

  ghost predicate AlwaysFiresNewest(s: State, steps: seq<Step>, key: string)
    requires Legal(s, steps)
    decreases |steps|
  {
    FiresNewest(s, key) && (steps != [] ==> AlwaysFiresNewest(Next(s, steps[0]), steps[1..], key))
  }

  ghost predicate RaceFree(s: State, key: string) {
    forall r :: r in s.lost && r < |s.log| ==> s.log[r].id != key
  }

  /** Every timer downstream of the race has one of its own key at the source. */
  lemma {:induction false} DownstreamSource(s: State, i: nat) returns (r: nat)
    requires Inv(s) && Downstream(s, i) && i < |s.log|
    ensures r in s.lost && r < |s.log| && s.log[r].id == s.log[i].id
    decreases i
  {
    if i in s.lost {
      r := i;
    } else {
      r := DownstreamSource(s, s.orphaned[i]);
    }
  }

  /** Without such a race a key has at most one live timer: the newest submission's. */
  lemma RaceFreeKeysHaveOneTimer(s: State, i: nat)
    requires Inv(s) && !s.stopped && i < |s.phase| && Pending(s.phase[i]) && RaceFree(s, s.log[i].id)
    ensures InMap(s, i) && Newest(s, i)
    ensures forall j: nat :: j < |s.phase| && Pending(s.phase[j]) && s.log[j].id == s.log[i].id ==> j == i
  {
    forall j: nat | j < |s.phase| && Pending(s.phase[j]) && s.log[j].id == s.log[i].id
      ensures InMap(s, j)
    {
      if Downstream(s, j) {
        var r := DownstreamSource(s, j);
        assert false;
      }
      StrayIff(s, j);
    }
  }

  /** No Submit of the key has been late, and only its newest timer can still run. */
  ghost predicate Clean(s: State, key: string) {
    && RaceFree(s, key)
    && forall i: nat :: i < |s.phase| && i < |s.log| && Pending(s.phase[i]) && s.log[i].id == key ==> Newest(s, i)
  }

  lemma RaceFreeStays(s: State, step: Step, key: string)
    requires Inv(s) && Enabled(s, step)
    ensures RaceFree(Next(s, step), key) <==> RaceFree(s, key) && !Late(s, step, key)
  {
    if step.Submit? && !s.stopped {
      SubmitAccepts(s, step.key, step.event);
      SubmitRaces(s, Next(s, step), step.key, key);
    }
  }

  lemma SubmitRaces(s: State, t: State, k: string, key: string)
    requires Shape(s) && MapIsNewest(s) && LostAreSuperseded(s) && Accepts(s, t, k)
    ensures RaceFree(t, key) <==> RaceFree(s, key) && !(k == key && Tardy(s, key))
  {
    if k == key && Tardy(s, key) {
      assert s.timers[key] in t.lost;
    }
    if RaceFree(t, key) {
      forall r | r in s.lost && r < |s.log| ensures s.log[r].id != key {
        assert t.log[r] == s.log[r];
      }
    }
  }

  lemma PunctualStepStaysClean(s: State, step: Step, key: string)
    requires Inv(s) && Enabled(s, step) && Clean(s, key) && !Late(s, step, key)
    ensures Clean(Next(s, step), key)
  {
    var t := Next(s, step);
    RaceFreeStays(s, step, key);
    StepKeepsInv(s, step);
    forall i: nat | i < |t.phase| && Pending(t.phase[i]) && t.log[i].id == key ensures Newest(t, i) {
      if t.stopped {
        assert t.log == s.log && Pending(s.phase[i]);
        assert Newest(s, i);
      } else {
        RaceFreeKeysHaveOneTimer(t, i);
      }
    }
  }

  /** A late Submit leaves an expired timer behind that is no longer the newest. */
  lemma LateStepIsSuperseding(s: State, step: Step, key: string)
    requires Inv(s) && Enabled(s, step) && Late(s, step, key)
    ensures !FiresNewest(Next(s, step), key)
  {
    var t, r := Next(s, step), s.timers[key];
    assert t.log[|s.log|].id == key && t.log[r] == s.log[r];
    assert Is(t, r, Expired) && !Newest(t, r);
  }

  lemma {:induction false} RacesAreRemembered(s: State, steps: seq<Step>, key: string)
    requires Inv(s) && Legal(s, steps)
    ensures RaceFree(Run(s, steps), key) <==> RaceFree(s, key) && NeverLate(s, steps, key)
    decreases |steps|
  {
    if steps != [] {
      RaceFreeStays(s, steps[0], key);
      StepKeepsInv(s, steps[0]);
      RacesAreRemembered(Next(s, steps[0]), steps[1..], key);
    }
  }

  lemma {:induction false} OnlyNewestFrom(s: State, steps: seq<Step>, key: string)
    requires Inv(s) && Clean(s, key) && Legal(s, steps)
    ensures AlwaysFiresNewest(s, steps, key) <==> NeverLate(s, steps, key)
    decreases |steps|
  {
    if steps != [] {
      var next := Next(s, steps[0]);
      if Late(s, steps[0], key) {
        LateStepIsSuperseding(s, steps[0], key);
        assert !AlwaysFiresNewest(next, steps[1..], key);
      } else {
        PunctualStepStaysClean(s, steps[0], key);
        StepKeepsInv(s, steps[0]);
        OnlyNewestFrom(next, steps[1..], key);
      }
    }
  }

  /**
   * Over any run, every callback of a key that fires carries the key's newest submission exactly
   * when no Submit of the key found the timer it replaced already fired. Keys are independent.
   */
  lemma OnlyNewestFiresIff(steps: seq<Step>, key: string)
    requires Legal(INITIAL, steps)
    ensures AlwaysFiresNewest(INITIAL, steps, key) <==> NeverLate(INITIAL, steps, key)
    ensures NeverLate(INITIAL, steps, key) <==> RaceFree(Run(INITIAL, steps), key)
  {
    InitialInv();
    OnlyNewestFrom(INITIAL, steps, key);
    RacesAreRemembered(INITIAL, steps, key);
  }

  // ---- the race is real ----------------------------------------------------------------------

  function StepsLeft(p: Phase): nat {
    match p
    case Armed => 4
    case Expired => 3
    case Locked => 2
    case Publishing => 1
    case _ => 0
  }

  /** What timer i still has to do until its event is delivered. */
  function Rest(p: Phase, i: nat): seq<Step>
    decreases StepsLeft(p)
  {
    match p
    case Armed => [TimerExpire(i)] + Rest(Expired, i)
    case Expired => [CallbackLock(i)] + Rest(Locked, i)
    case Locked => [PublishStart(i)] + Rest(Publishing, i)
    case Publishing => [PublishEnd(i, true)]
    case _ => []
  }

  /** Until Stop, a live timer can always go on to deliver, with `more` after it. */
  lemma {:induction false} Fires(s: State, i: nat, more: seq<Step>) returns (t: State)
    requires Shape(s) && !s.stopped && i < |s.phase| && StepsLeft(s.phase[i]) > 0
    ensures t.log == s.log && t.phase == s.phase[i := Finished] && t.delivered == s.delivered + [i] && !t.stopped
    ensures t.lost == s.lost
    ensures var steps := Rest(s.phase[i], i) + more;
            Legal(t, more) ==> Legal(s, steps) && Run(s, steps) == Run(t, more)
    decreases StepsLeft(s.phase[i])
  {
    var steps := Rest(s.phase[i], i) + more;
    var next := Next(s, steps[0]);
    Unroll(s, steps);
    if s.phase[i].Publishing? {
      assert steps[1..] == more;
      t := next;
    } else {
      assert steps[1..] == Rest(next.phase[i], i) + more;
      t := Fires(next, i, more);
    }
  }

  lemma Unroll(s: State, steps: seq<Step>)
    requires steps != [] && Enabled(s, steps[0])
    ensures Legal(s, steps) <==> Legal(Next(s, steps[0]), steps[1..])
    ensures Legal(s, steps) ==> Run(s, steps) == Run(Next(s, steps[0]), steps[1..])
  {
  }

  /** First timer j delivers, then timer i. */
  function Overtaking(s: State, j: nat, i: nat): seq<Step>
    requires i < |s.phase| && j < |s.phase|
  {
    Rest(s.phase[j], j) + (Rest(s.phase[i], i) + [])
  }

  lemma Overtakes(s: State, j: nat, i: nat)
    requires Shape(s) && !s.stopped && i < |s.phase| && j < |s.phase| && i != j
    requires StepsLeft(s.phase[i]) > 0 && StepsLeft(s.phase[j]) > 0
    ensures Legal(s, Overtaking(s, j, i))
    ensures var t := Run(s, Overtaking(s, j, i));
            && t.log == s.log && t.phase == s.phase[j := Finished][i := Finished]
            && t.delivered == s.delivered + [j] + [i] && !t.stopped && t.lost == s.lost
  {
    var t := Fires(s, j, Rest(s.phase[i], i) + []);
    var u := Fires(t, i, []);
    assert Legal(u, []) && Run(u, []) == u;
  }

  /**
   * A timer that fires just before a newer Submit can still publish, and after the newer
   * event. The last event delivered is then the superseded one.
   */
  lemma StaleDeliveryExists(k: string, e0: Notice, e1: Notice) returns (steps: seq<Step>)
    ensures Legal(INITIAL, steps)
    ensures var t := Run(INITIAL, steps);
            t.log == [Labelled(k, e0), Labelled(k, e1)] && t.delivered == [1, 0] && !t.stopped
  {
    var raced := State([Labelled(k, e0), Labelled(k, e1)], [Expired, Armed], map[k := 1],
                       false, 0, 0, false, {0}, map[], [], []);
    var rest := Overtaking(raced, 1, 0);
    Overtakes(raced, 1, 0);
    steps := [Submit(k, e0), TimerExpire(0), Submit(k, e1)] + rest;
    RacedState(steps, k, e0, e1, raced);
  }

  lemma RacedState(steps: seq<Step>, k: string, e0: Notice, e1: Notice, raced: State)
    requires |steps| >= 3 && steps[0] == Submit(k, e0) && steps[1] == TimerExpire(0) && steps[2] == Submit(k, e1)
    requires raced == State([Labelled(k, e0), Labelled(k, e1)], [Expired, Armed], map[k := 1],
                            false, 0, 0, false, {0}, map[], [], [])
    requires Legal(raced, steps[3..])
    ensures Legal(INITIAL, steps) && Run(INITIAL, steps) == Run(raced, steps[3..])
  {
    var s1 := Next(INITIAL, steps[0]);
    var s2 := Next(s1, steps[1]);
    assert s2.phase == [Expired];
    var s3 := Next(s2, steps[2]);
    assert s3.phase == raced.phase && s3.log == raced.log && s3.timers == raced.timers && s3.lost == raced.lost;
    assert s3 == raced;
    Unroll(INITIAL, steps);
    Unroll(s1, steps[1..]);
    Unroll(s2, steps[2..]);
    assert steps[1..][1..] == steps[2..] && steps[2..][1..] == steps[3..];
  }

  /**
   * The race also works at second hand: the callback of the timer that escaped deletes the
   * newer timer's entry, so that the next Submit cannot stop that one either.
   */
  lemma OrphanDeliveryExists(k: string, e0: Notice, e1: Notice, e2: Notice) returns (steps: seq<Step>)
    ensures Legal(INITIAL, steps)
    ensures var t := Run(INITIAL, steps);
            && t.log == [Labelled(k, e0), Labelled(k, e1), Labelled(k, e2)] && t.delivered == [2, 1] && !t.stopped
            && t.lost == {0}
  {
    var raced := State([Labelled(k, e0), Labelled(k, e1)], [Expired, Armed], map[k := 1],
                       false, 0, 0, false, {0}, map[], [], []);
    var locked := Next(raced, CallbackLock(0));
    var third := Next(locked, Submit(k, e2));
    assert third.log == [Labelled(k, e0), Labelled(k, e1), Labelled(k, e2)] && third.phase == [Locked, Armed, Armed];
    var rest := Overtaking(third, 2, 1);
    Overtakes(third, 2, 1);
    var tail := [CallbackLock(0), Submit(k, e2)] + rest;
    Unroll(raced, tail);
    Unroll(locked, tail[1..]);
    assert tail[1..][1..] == rest;
    steps := [Submit(k, e0), TimerExpire(0), Submit(k, e1)] + tail;
    assert steps[3..] == tail;
    RacedState(steps, k, e0, e1, raced);
  }
}
