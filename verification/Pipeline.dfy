// End to end: the monitor feeds the debouncer, the debouncer publishes. What is delivered
// for an instance is compared with what its history calls for.
module Pipeline {
  import opened Wrappers
  import opened Status
  import opened History
  import opened Debounce

  datatype System = System(history: seq<Labelled<Event>>, d: State)

  /** A handler's reconcile and submit are one step; every other step is the debouncer's. */
  datatype Action = Handle(id: string, e: Event) | Move(step: Step)

  const START := System([], INITIAL)

  predicate Possible(p: System, a: Action) {
    a.Move? ==> !a.step.Submit? && Enabled(p.d, a.step)
  }

  function DueOf(p: System, id: string, e: Event): Option<Notice> {
    Due(Of(p.history, id), e)
  }

  function Act(p: System, a: Action): System
    requires Possible(p, a)
  {
    match a
    case Move(step) => p.(d := Next(p.d, step))
    case Handle(id, e) =>
      var due := DueOf(p, id, e);
      System(p.history + [Labelled(id, e)], if due.Some? then DoSubmit(p.d, id, due.value) else p.d)
  }

  /** A callback of this key has fired and not finished. */
  ghost predicate Busy(d: State, key: string) {
    exists i: nat :: i < |d.log| && i < |d.phase| && d.log[i].id == key
      && (d.phase[i].Expired? || Flying(d.phase[i]))
  }

  /** No notice is submitted for a key while a callback of that key is under way. */
  ghost predicate Serial(p: System, a: Action) {
    a.Handle? && DueOf(p, a.id, a.e).Some? ==> !Busy(p.d, a.id)
  }

  ghost predicate SerialRun(p: System, actions: seq<Action>)
    decreases |actions|
  {
    actions == []
    || (Possible(p, actions[0]) && Serial(p, actions[0]) && SerialRun(Act(p, actions[0]), actions[1..]))
  }

  ghost function RunAll(p: System, actions: seq<Action>): System
    requires SerialRun(p, actions)
    decreases |actions|
  {
    if actions == [] then p else RunAll(Act(p, actions[0]), actions[1..])
  }

  predicate NoDrop(a: Action) {
    a.Move? && a.step.PublishEnd? ==> a.step.ok
  }

  // ---- delivered and submitted streams ----------------------------------------------------

  function Deliveries(log: seq<Labelled<Notice>>, q: seq<nat>): seq<Labelled<Notice>>
    requires forall j :: 0 <= j < |q| ==> q[j] < |log|
  {
    if q == [] then []
    else Deliveries(log, q[..|q|-1]) + [log[q[|q|-1]]]
  }

  ghost predicate DeliveredInLog(d: State) {
    forall j :: 0 <= j < |d.delivered| ==> d.delivered[j] < |d.log|
  }

  function Submitted(d: State, key: string): seq<Notice> {
    Of(d.log, key)
  }

  ghost function Delivered(d: State, key: string): seq<Notice>
    requires DeliveredInLog(d)
  {
    Of(Deliveries(d.log, d.delivered), key)
  }

  lemma {:induction false} DeliveriesIgnoreGrowth(log: seq<Labelled<Notice>>, x: Labelled<Notice>, q: seq<nat>)
    requires forall j :: 0 <= j < |q| ==> q[j] < |log|
    ensures Deliveries(log + [x], q) == Deliveries(log, q)
  {
    if q != [] {
      DeliveriesIgnoreGrowth(log, x, q[..|q|-1]);
    }
  }

  // ---- subsequences --------------------------------------------------------------------------

  /** `a` is obtained from `b` by leaving elements out. */
  predicate Subsequence<T(==)>(a: seq<T>, b: seq<T>)
    decreases |b|
  {
    a == []
    || (b != [] && ((a[|a|-1] == b[|b|-1] && Subsequence(a[..|a|-1], b[..|b|-1]))
                    || Subsequence(a, b[..|b|-1])))
  }

  lemma SkipOne<T>(a: seq<T>, b: seq<T>, x: T)
    requires Subsequence(a, b)
    ensures Subsequence(a, b + [x])
  {
    assert (b + [x])[..|b|] == b;
  }

  lemma TakeOne<T>(a: seq<T>, b: seq<T>, x: T)
    requires Subsequence(a, b)
    ensures Subsequence(a + [x], b + [x])
  {
    assert (b + [x])[..|b|] == b && (a + [x])[..|a|] == a;
  }

  lemma {:induction false} SkipMany<T>(a: seq<T>, b: seq<T>, more: seq<T>)
    requires Subsequence(a, b)
    ensures Subsequence(a, b + more)
    decreases |more|
  {
    if more == [] {
      assert b + more == b;
    } else {
      SkipMany(a, b, more[..|more|-1]);
      SkipOne(a, b + more[..|more|-1], more[|more|-1]);
      assert b + more[..|more|-1] + [more[|more|-1]] == b + more;
    }
  }

  // ---- the invariant of serial runs --------------------------------------------------------------

  ghost predicate LiveAt(d: State, i: nat, key: string) {
    i < |d.log| && i < |d.phase| && d.log[i].id == key && (Pending(d.phase[i]) || Flying(d.phase[i]))
  }

  /** Some timer of the key is pending or its callback is under way. */
  ghost predicate Live(d: State, key: string) {
    exists i: nat :: LiveAt(d, i, key)
  }

  ghost predicate OnlyNewestLive(d: State, key: string) {
    forall i: nat :: LiveAt(d, i, key) ==> Newest(d, i)
  }

  /** While a timer is live, the newest submission is the one still owed. */
  ghost predicate InOrder(d: State, key: string, noDrops: bool)
    requires DeliveredInLog(d)
  {
    var sent, got := Submitted(d, key), Delivered(d, key);
    && (Live(d, key) ==> sent != [] && Subsequence(got, sent[..|sent|-1]))
    && (!Live(d, key) ==> Subsequence(got, sent))
    && (!Live(d, key) && noDrops && !d.stopped && sent != [] ==>
          got != [] && got[|got|-1] == sent[|sent|-1])
  }

  ghost predicate SerialInv(d: State, noDrops: bool) {
    && Inv(d) && d.lost == {} && DeliveredInLog(d)
    && forall key :: OnlyNewestLive(d, key) && InOrder(d, key, noDrops)
  }

  lemma {:induction false} NewestIsLast(d: State, i: nat)
    requires Newest(d, i)
    ensures Of(d.log, d.log[i].id) != []
    ensures Of(d.log, d.log[i].id)[|Of(d.log, d.log[i].id)|-1] == d.log[i].item
    decreases |d.log|
  {
    if i < |d.log| - 1 {
      var shorter := d.(log := d.log[..|d.log|-1]);
      assert Newest(shorter, i);
      NewestIsLast(shorter, i);
    }
  }

  /** Steps that leave log, deliveries and stop flag alone, and only end or continue lives. */
  lemma QuietStepKeepsOrder(d: State, t: State, key: string, noDrops: bool)
    requires DeliveredInLog(d) && OnlyNewestLive(d, key) && InOrder(d, key, noDrops)
    requires t.log == d.log && t.delivered == d.delivered
    requires forall i: nat :: LiveAt(t, i, key) ==> LiveAt(d, i, key)
    requires t.stopped || (!d.stopped && (Live(d, key) ==> Live(t, key)))
    ensures OnlyNewestLive(t, key) && InOrder(t, key, noDrops)
  {
    InOrderIsSubsequence(d, key, noDrops);
  }

  lemma MoveKeepsLives(d: State, step: Step, i: nat, key: string)
    requires Shape(d) && Enabled(d, step) && !step.Submit? && !step.PublishEnd?
    ensures var t := Next(d, step);
            && t.log == d.log && t.delivered == d.delivered && (d.stopped ==> t.stopped)
            && (LiveAt(t, i, key) ==> LiveAt(d, i, key))
            && (!t.stopped && LiveAt(d, i, key) ==> LiveAt(t, i, key))
  {
  }

  lemma MoveKeepsOrder(d: State, step: Step, key: string, noDrops: bool)
    requires SerialInv(d, noDrops) && Enabled(d, step)
    requires !step.Submit? && !step.PublishEnd?
    ensures DeliveredInLog(Next(d, step))
    ensures OnlyNewestLive(Next(d, step), key) && InOrder(Next(d, step), key, noDrops)
  {
    var t := Next(d, step);
    assert OnlyNewestLive(d, key) && InOrder(d, key, noDrops);
    forall i: nat
      ensures LiveAt(t, i, key) ==> LiveAt(d, i, key)
      ensures !t.stopped && LiveAt(d, i, key) ==> LiveAt(t, i, key)
    {
      MoveKeepsLives(d, step, i, key);
    }
    MoveKeepsLives(d, step, 0, key);
    QuietStepKeepsOrder(d, t, key, noDrops);
  }

  lemma EndStreams(d: State, i: nat, ok: bool, key: string)
    requires DeliveredInLog(d) && Is(d, i, Publishing) && i < |d.log|
    ensures var t := Next(d, PublishEnd(i, ok));
            && DeliveredInLog(t)
            && Delivered(t, key) == if ok && d.log[i].id == key then Delivered(d, key) + [d.log[i].item] else Delivered(d, key)
  {
    var t := Next(d, PublishEnd(i, ok));
    if ok {
      assert t.delivered[..|d.delivered|] == d.delivered;
      OfSnoc(Deliveries(d.log, d.delivered), d.log[i], key);
    }
  }

  /** A publish that ends was the one live submission of its key. */
  lemma EndLives(d: State, i: nat, ok: bool, key: string)
    requires Shape(d) && Is(d, i, Publishing) && OnlyNewestLive(d, key)
    ensures var t := Next(d, PublishEnd(i, ok));
            && OnlyNewestLive(t, key)
            && (d.log[i].id == key ==> Live(d, key) && Newest(d, i) && !Live(t, key))
            && (d.log[i].id != key ==> (Live(t, key) <==> Live(d, key)))
  {
    var t := Next(d, PublishEnd(i, ok));
    assert forall j: nat :: Newest(t, j) <==> Newest(d, j);
    assert forall j: nat :: LiveAt(t, j, key) <==> LiveAt(d, j, key) && j != i;
    if d.log[i].id == key {
      assert LiveAt(d, i, key);
      assert forall j: nat :: LiveAt(d, j, key) ==> Newest(d, j) && Newest(d, i) && j == i;
    }
  }

  /** The element owed is delivered or skipped. */
  lemma LastSettled<T>(got: seq<T>, sent: seq<T>, ok: bool)
    requires sent != [] && Subsequence(got, sent[..|sent|-1])
    ensures Subsequence(if ok then got + [sent[|sent|-1]] else got, sent)
  {
    assert sent[..|sent|-1] + [sent[|sent|-1]] == sent;
    if ok {
      TakeOne(got, sent[..|sent|-1], sent[|sent|-1]);
    } else {
      SkipOne(got, sent[..|sent|-1], sent[|sent|-1]);
    }
  }

  lemma EndSettles(d: State, t: State, key: string, item: Notice, ok: bool, noDrops: bool)
    requires DeliveredInLog(d) && DeliveredInLog(t) && InOrder(d, key, noDrops) && (noDrops ==> ok)
    requires t.log == d.log && t.stopped == d.stopped && Live(d, key) && !Live(t, key)
    requires Submitted(d, key) != [] && Submitted(d, key)[|Submitted(d, key)|-1] == item
    requires Delivered(t, key) == if ok then Delivered(d, key) + [item] else Delivered(d, key)
    ensures InOrder(t, key, noDrops)
  {
    LastSettled(Delivered(d, key), Submitted(d, key), ok);
  }

  lemma EndKeepsOrder(d: State, i: nat, ok: bool, key: string, noDrops: bool)
    requires Shape(d) && DeliveredInLog(d) && OnlyNewestLive(d, key) && InOrder(d, key, noDrops)
    requires Is(d, i, Publishing) && (noDrops ==> ok)
    ensures var t := Next(d, PublishEnd(i, ok));
            DeliveredInLog(t) && OnlyNewestLive(t, key) && InOrder(t, key, noDrops)
  {
    EndLives(d, i, ok, key);
    EndStreams(d, i, ok, key);
    if d.log[i].id == key {
      NewestIsLast(d, i);
      EndSettles(d, Next(d, PublishEnd(i, ok)), key, d.log[i].item, ok, noDrops);
    }
  }

  /** The streams after a Submit: one more submission for its key, nothing else. */
  lemma SubmitStreams(d: State, k: string, n: Notice, key: string)
    requires DeliveredInLog(d) && !d.stopped
    ensures var t := DoSubmit(d, k, n);
            && DeliveredInLog(t) && Delivered(t, key) == Delivered(d, key)
            && Submitted(t, key) == if key == k then Submitted(d, key) + [n] else Submitted(d, key)
  {
    OfSnoc(d.log, Labelled(k, n), key);
    DeliveriesIgnoreGrowth(d.log, Labelled(k, n), d.delivered);
  }

  lemma SubmitSparesOthers(d: State, k: string, n: Notice, key: string)
    requires Inv(d) && !d.stopped && key != k
    ensures forall i: nat :: LiveAt(DoSubmit(d, k, n), i, key) <==> LiveAt(d, i, key)
  {
    var t := DoSubmit(d, k, n);
    assert t.log[|d.log|].id == k;
    forall i: nat | i < |d.log| && d.log[i].id == key ensures t.log[i] == d.log[i] && t.phase[i] == d.phase[i] {
    }
  }

  lemma SubmitKeepsOthers(d: State, k: string, n: Notice, key: string, noDrops: bool)
    requires SerialInv(d, noDrops) && !d.stopped && key != k
    ensures var t := DoSubmit(d, k, n);
            DeliveredInLog(t) && OnlyNewestLive(t, key) && InOrder(t, key, noDrops)
  {
    assert OnlyNewestLive(d, key) && InOrder(d, key, noDrops);
    SubmitStreams(d, k, n, key);
    SubmitSparesOthers(d, k, n, key);
    forall i: nat | LiveAt(d, i, key) ensures Newest(DoSubmit(d, k, n), i) {
      NewestAfterSubmit(d, k, n, i);
    }
  }

  /** In a serial run the timer being replaced is in the map and still armed. */
  lemma SubmitCancelsOlder(d: State, k: string, n: Notice)
    requires Inv(d) && d.lost == {} && !d.stopped && !Busy(d, k)
    ensures DoSubmit(d, k, n).lost == {}
    ensures forall i: nat :: LiveAt(DoSubmit(d, k, n), i, k) <==> i == |d.log|
  {
    SubmitAccepts(d, k, n);
    forall i: nat | i < |d.log| && d.log[i].id == k ensures !LiveAt(DoSubmit(d, k, n), i, k) {
      assert !(d.phase[i].Expired? || Flying(d.phase[i]));
      if d.phase[i].Armed? {
        RaceFreeKeysHaveOneTimer(d, i);
        assert Stops(d, k, i);
      }
    }
    MapEntryIsArmed(d, k);
  }

  lemma MapEntryIsArmed(d: State, k: string)
    requires Inv(d) && !Busy(d, k)
    ensures !Tardy(d, k)
  {
    if k in d.timers {
      assert Pending(d.phase[d.timers[k]]) && d.log[d.timers[k]].id == k;
    }
  }

  /** Whatever is live, what was delivered is a subsequence of what was submitted. */
  lemma InOrderIsSubsequence(d: State, key: string, noDrops: bool)
    requires DeliveredInLog(d) && InOrder(d, key, noDrops)
    ensures Subsequence(Delivered(d, key), Submitted(d, key))
  {
    var sent := Submitted(d, key);
    if Live(d, key) {
      SkipOne(Delivered(d, key), sent[..|sent|-1], sent[|sent|-1]);
      assert sent[..|sent|-1] + [sent[|sent|-1]] == sent;
    }
  }

  lemma SubmitOwesNewest(d: State, k: string, n: Notice, noDrops: bool)
    requires SerialInv(d, noDrops) && !d.stopped && !Busy(d, k)
    ensures var t := DoSubmit(d, k, n);
            DeliveredInLog(t) && OnlyNewestLive(t, k) && InOrder(t, k, noDrops)
  {
    InOrderIsSubsequence(d, k, noDrops);
    SubmitStreams(d, k, n, k);
    SubmitCancelsOlder(d, k, n);
    NewestAfterSubmit(d, k, n, |d.log|);
    assert (Submitted(d, k) + [n])[..|Submitted(d, k)|] == Submitted(d, k);
    assert LiveAt(DoSubmit(d, k, n), |d.log|, k);
  }

  lemma SubmitKeepsSerialInv(d: State, k: string, n: Notice, noDrops: bool)
    requires SerialInv(d, noDrops) && !Busy(d, k)
    ensures SerialInv(DoSubmit(d, k, n), noDrops)
  {
    if !d.stopped {
      StepKeepsInv(d, Step.Submit(k, n));
      SubmitOwesNewest(d, k, n, noDrops);
      SubmitCancelsOlder(d, k, n);
      var t := DoSubmit(d, k, n);
      forall key ensures OnlyNewestLive(t, key) && InOrder(t, key, noDrops) {
        if key != k {
          SubmitKeepsOthers(d, k, n, key, noDrops);
        }
      }
    }
  }

  lemma MoveKeepsSerialInv(d: State, step: Step, noDrops: bool)
    requires SerialInv(d, noDrops) && Enabled(d, step) && !step.Submit?
    requires noDrops && step.PublishEnd? ==> step.ok
    ensures SerialInv(Next(d, step), noDrops)
  {
    StepKeepsInv(d, step);
    var t := Next(d, step);
    forall key ensures DeliveredInLog(t) && OnlyNewestLive(t, key) && InOrder(t, key, noDrops) {
      assert OnlyNewestLive(d, key) && InOrder(d, key, noDrops);
      if step.PublishEnd? {
        EndKeepsOrder(d, step.i, step.ok, key, noDrops);
      } else {
        MoveKeepsOrder(d, step, key, noDrops);
      }
    }
    assert DeliveredInLog(t) by {
      assert OnlyNewestLive(t, "");
    }
  }

  /** What was accepted for a key is what its history reports, up to the moment of Stop. */
  ghost predicate Faithful(p: System, key: string) {
    var due, sent := Stream(Of(p.history, key)), Submitted(p.d, key);
    sent <= due && (!p.d.stopped ==> sent == due)
  }

  lemma HandleExtendsStream(p: System, id: string, e: Event, key: string)
    requires Possible(p, Handle(id, e))
    ensures var q := Act(p, Handle(id, e));
            Stream(Of(q.history, key)) == Stream(Of(p.history, key)) + (if id == key then ToSeq(DueOf(p, id, e)) else [])
  {
    OfSnoc(p.history, Labelled(id, e), key);
    if id == key {
      StreamSnoc(Of(p.history, key), e);
    }
  }

  lemma HandleExtendsSubmitted(p: System, id: string, e: Event, key: string)
    requires Possible(p, Handle(id, e)) && !p.d.stopped
    ensures var q := Act(p, Handle(id, e));
            Submitted(q.d, key) == Submitted(p.d, key) + (if id == key then ToSeq(DueOf(p, id, e)) else [])
  {
    var due := DueOf(p, id, e);
    if due.Some? {
      OfSnoc(p.d.log, Labelled(id, due.value), key);
    }
  }

  lemma BothGrow<T>(sent: seq<T>, due: seq<T>, more: seq<T>)
    requires sent <= due
    ensures sent <= due + more
    ensures sent == due ==> sent + more == due + more
  {
  }

  lemma MoveKeepsLog(d: State, step: Step)
    requires Enabled(d, step) && !step.Submit?
    ensures Next(d, step).log == d.log && (d.stopped ==> Next(d, step).stopped)
  {
  }

  lemma ActKeepsFaithful(p: System, a: Action, key: string)
    requires Possible(p, a) && Faithful(p, key)
    ensures Faithful(Act(p, a), key)
  {
    match a
    case Handle(id, e) => HandleKeepsFaithful(p, id, e, key);
    case Move(step) =>
      MoveKeepsLog(p.d, step);
      var q := p.(d := Next(p.d, step));
      FaithfulDependsOnLog(p, q, key);
  }

  lemma FaithfulDependsOnLog(p: System, q: System, key: string)
    requires Faithful(p, key) && q.history == p.history && q.d.log == p.d.log
    requires p.d.stopped ==> q.d.stopped
    ensures Faithful(q, key)
  {
  }

  lemma HandleKeepsFaithful(p: System, id: string, e: Event, key: string)
    requires Possible(p, Handle(id, e)) && Faithful(p, key)
    ensures Faithful(Act(p, Handle(id, e)), key)
  {
    var more := if id == key then ToSeq(DueOf(p, id, e)) else [];
    HandleExtendsStream(p, id, e, key);
    BothGrow(Submitted(p.d, key), Stream(Of(p.history, key)), more);
    if !p.d.stopped {
      HandleExtendsSubmitted(p, id, e, key);
    }
  }

  lemma {:induction false} RunKeeps(p: System, actions: seq<Action>, noDrops: bool)
    requires SerialInv(p.d, noDrops) && (forall key :: Faithful(p, key))
    requires SerialRun(p, actions)
    requires noDrops ==> forall a :: a in actions ==> NoDrop(a)
    ensures SerialInv(RunAll(p, actions).d, noDrops)
    ensures forall key :: Faithful(RunAll(p, actions), key)
    decreases |actions|
  {
    if actions != [] {
      var a := actions[0];
      var q := Act(p, a);
      forall key ensures Faithful(q, key) {
        ActKeepsFaithful(p, a, key);
      }
      if a.Move? {
        assert a in actions;
        MoveKeepsSerialInv(p.d, a.step, noDrops);
      } else if DueOf(p, a.id, a.e).Some? {
        SubmitKeepsSerialInv(p.d, a.id, DueOf(p, a.id, a.e).value, noDrops);
      }
      RunKeeps(q, actions[1..], noDrops);
    }
  }

  lemma StartIsGood(noDrops: bool)
    ensures SerialInv(START.d, noDrops) && forall key :: Faithful(START, key)
  {
    InitialInv();
  }

  // ---- the theorems ---------------------------------------------------------------------------

  /** In a serial run, publishes of an instance keep its order: only skipping is possible. */
  lemma DeliveryKeepsOrder(actions: seq<Action>, id: string)
    requires SerialRun(START, actions)
    ensures var p := RunAll(START, actions);
            DeliveredInLog(p.d) && Subsequence(Delivered(p.d, id), Stream(Of(p.history, id)))
  {
    StartIsGood(false);
    RunKeeps(START, actions, false);
    var p := RunAll(START, actions);
    SubsequenceOfDue(p, id);
  }

  lemma SubsequenceOfDue(p: System, id: string)
    requires SerialInv(p.d, false) && Faithful(p, id)
    ensures Subsequence(Delivered(p.d, id), Stream(Of(p.history, id)))
  {
    var sent, due := Submitted(p.d, id), Stream(Of(p.history, id));
    assert OnlyNewestLive(p.d, id);
    InOrderIsSubsequence(p.d, id, false);
    SkipMany(Delivered(p.d, id), sent, due[|sent|..]);
    assert sent + due[|sent|..] == due;
  }

  /** The last delivery is the last report due: the current composite, or DELETED. */
  ghost predicate Informed(p: System, id: string)
    requires DeliveredInLog(p.d)
  {
    var h, got := Of(p.history, id), Delivered(p.d, id);
    Stream(h) != [] ==>
      && got != [] && got[|got|-1] == Stream(h)[|Stream(h)|-1]
      && got[|got|-1].status == if CurrentStatus(h).Some? then CurrentStatus(h).value else DELETED
  }

  lemma QuiescentIsInformed(p: System, id: string)
    requires SerialInv(p.d, true) && Faithful(p, id) && !p.d.stopped && !Live(p.d, id)
    ensures Informed(p, id)
  {
    assert OnlyNewestLive(p.d, id) && InOrder(p.d, id, true);
    LastNoticeIsCurrent(Of(p.history, id));
  }

  /**
   * When every publish succeeds within its retries, a quiescent instance has been told the
   * truth: the last delivered status is the composite of what is now seen, or DELETED.
   */
  lemma DeliveryCatchesUp(actions: seq<Action>, id: string)
    requires SerialRun(START, actions) && forall a :: a in actions ==> NoDrop(a)
    ensures var p := RunAll(START, actions);
            DeliveredInLog(p.d) && (!p.d.stopped && !Live(p.d, id) ==> Informed(p, id))
    ensures CurrentStatus(Of(RunAll(START, actions).history, id)).Some? ==>
              Stream(Of(RunAll(START, actions).history, id)) != []
  {
    StartIsGood(true);
    RunKeeps(START, actions, true);
    var p := RunAll(START, actions);
    if !p.d.stopped && !Live(p.d, id) {
      QuiescentIsInformed(p, id);
    }
    LastNoticeIsCurrent(Of(p.history, id));
  }

  // ---- the hypothesis is needed -------------------------------------------------------------------

  /** Debouncer steps after which nothing of the key is pending, all publishes having succeeded. */
  ghost predicate Settles(d: State, steps: seq<Step>, key: string) {
    && Legal(d, steps)
    && (forall step :: step in steps ==> !step.Submit? && (step.PublishEnd? ==> step.ok))
    && !Run(d, steps).stopped && !Live(Run(d, steps), key)
  }

  /** However the debouncer settles, the instance ends up informed. */
  ghost predicate EndsInformed(p: System, id: string) {
    forall steps :: Settles(p.d, steps, id) ==>
      var q := p.(d := Run(p.d, steps)); DeliveredInLog(q.d) && Informed(q, id)
  }

  lemma {:induction false} SettlingKeeps(d: State, steps: seq<Step>)
    requires SerialInv(d, true) && Legal(d, steps)
    requires forall step :: step in steps ==> !step.Submit? && (step.PublishEnd? ==> step.ok)
    ensures SerialInv(Run(d, steps), true) && Run(d, steps).log == d.log
    ensures d.stopped ==> Run(d, steps).stopped
    decreases |steps|
  {
    if steps != [] {
      assert steps[0] in steps;
      MoveKeepsSerialInv(d, steps[0], true);
      MoveKeepsLog(d, steps[0]);
      SettlingKeeps(Next(d, steps[0]), steps[1..]);
    }
  }

  /** After a notice that was serial, every way to settle informs the instance. */
  lemma SerialEndsInformed(p: System, id: string, e: Event)
    requires SerialInv(p.d, true) && Faithful(p, id) && !p.d.stopped
    requires DueOf(p, id, e).Some? && !Busy(p.d, id)
    ensures EndsInformed(Act(p, Handle(id, e)), id)
  {
    var q := Act(p, Handle(id, e));
    SubmitKeepsSerialInv(p.d, id, DueOf(p, id, e).value, true);
    HandleKeepsFaithful(p, id, e, id);
    forall steps | Settles(q.d, steps, id)
      ensures var r := q.(d := Run(q.d, steps)); DeliveredInLog(r.d) && Informed(r, id)
    {
      var r := q.(d := Run(q.d, steps));
      SettlingKeeps(q.d, steps);
      FaithfulDependsOnLog(q, r, id);
      QuiescentIsInformed(r, id);
    }
  }

  /** The notice differs from the one before it, unless it repeats a deletion. */
  ghost predicate NewsFor(p: System, id: string, e: Event) {
    var h := Of(p.history, id);
    DueOf(p, id, e).Some? && (Stream(h) != [] ==> Stream(h)[|Stream(h)|-1].status != DueOf(p, id, e).value.status)
  }

  lemma NewsIff(p: System, id: string, e: Event)
    requires DueOf(p, id, e).Some? && Stream(Of(p.history, id)) != []
    ensures NewsFor(p, id, e) <==> !(e.HcGone? && CurrentStatus(Of(p.history, id)).None?)
  {
    var h := Of(p.history, id);
    LastNoticeIsCurrent(h);
    CurrentIsNeverDeleted(h);
    CurrentIsNeverDeleted(h + [e]);
  }

  lemma BusyIsLive(d: State, key: string) returns (i: nat)
    requires Busy(d, key)
    ensures LiveAt(d, i, key) && !d.phase[i].Armed?
  {
    i :| i < |d.log| && i < |d.phase| && d.log[i].id == key && (d.phase[i].Expired? || Flying(d.phase[i]));
  }

  /** Timer i of this key is under way and the newer one overtakes it: i delivers last. */
  lemma OvertakenDeliversLast(d: State, i: nat, key: string, n: Notice) returns (steps: seq<Step>)
    requires SerialInv(d, true) && !d.stopped && LiveAt(d, i, key) && !d.phase[i].Armed?
    ensures var t := DoSubmit(d, key, n);
            && Settles(t, steps, key)
            && Run(t, steps).log == t.log && Run(t, steps).delivered == d.delivered + [|d.log|, i]
  {
    var t, j := DoSubmit(d, key, n), |d.log|;
    SubmitAccepts(d, key, n);
    steps := Overtaking(t, j, i);
    Overtakes(t, j, i);
    OvertakingOnlyPublishes(t, j, i);
    var u := Run(t, steps);
    assert OnlyNewestLive(d, key);
    NothingElseLive(d, t, u, i, key);
  }

  lemma NothingElseLive(d: State, t: State, u: State, i: nat, key: string)
    requires Shape(d) && OnlyNewestLive(d, key) && LiveAt(d, i, key) && Accepts(d, t, key)
    requires u.log == t.log && u.phase == t.phase[|d.log| := Finished][i := Finished]
    ensures !Live(u, key)
  {
    forall x: nat ensures !LiveAt(u, x, key) {
      assert LiveAt(d, x, key) ==> Newest(d, x) && Newest(d, i);
    }
  }

  lemma OvertakingOnlyPublishes(d: State, j: nat, i: nat)
    requires i < |d.phase| && j < |d.phase|
    ensures forall step :: step in Overtaking(d, j, i) ==> !step.Submit? && (step.PublishEnd? ==> step.ok)
  {
    RestOnlyPublishes(d.phase[i], i);
    RestOnlyPublishes(d.phase[j], j);
  }

  lemma {:induction false} RestOnlyPublishes(p: Phase, i: nat)
    ensures forall step :: step in Rest(p, i) ==> !step.Submit? && (step.PublishEnd? ==> step.ok)
    decreases StepsLeft(p)
  {
    match p
    case Armed => RestOnlyPublishes(Expired, i);
    case Expired => RestOnlyPublishes(Locked, i);
    case Locked => RestOnlyPublishes(Publishing, i);
    case _ =>
  }

  /** A notice submitted under a callback of its key can end with the older one delivered last. */
  lemma OverlapMisinforms(p: System, id: string, e: Event)
    requires SerialInv(p.d, true) && Faithful(p, id) && !p.d.stopped
    requires NewsFor(p, id, e) && Busy(p.d, id)
    ensures !EndsInformed(Act(p, Handle(id, e)), id)
  {
    var q, n := Act(p, Handle(id, e)), DueOf(p, id, e).value;
    var i := BusyIsLive(p.d, id);
    var steps := OvertakenDeliversLast(p.d, i, id, n);
    var r := q.(d := Run(q.d, steps));
    SubmitAccepts(p.d, id, n);
    assert OnlyNewestLive(p.d, id);
    NewestIsLast(p.d, i);
    HandleExtendsStream(p, id, e, id);
    if DeliveredInLog(r.d) {
      LastDelivered(r.d, i, id);
      assert Delivered(r.d, id)[|Delivered(r.d, id)|-1] == p.d.log[i].item;
    }
  }

  lemma LastDelivered(d: State, i: nat, key: string)
    requires DeliveredInLog(d) && d.delivered != [] && d.delivered[|d.delivered|-1] == i && d.log[i].id == key
    ensures Delivered(d, key) != [] && Delivered(d, key)[|Delivered(d, key)|-1] == d.log[i].item
  {
    var init := d.delivered[..|d.delivered|-1];
    OfSnoc(Deliveries(d.log, init), d.log[i], key);
  }

  /**
   * The hypothesis of the theorems is exact. In any state a serial run can reach, a notice that
   * is news may be submitted safely exactly when it is serial: then every way to settle informs
   * the instance, and otherwise some way does not.
   */
  lemma SerialIsExact(actions: seq<Action>, id: string, e: Event)
    requires SerialRun(START, actions) && forall a :: a in actions ==> NoDrop(a)
    requires var p := RunAll(START, actions); !p.d.stopped && NewsFor(p, id, e)
    ensures var p := RunAll(START, actions);
            EndsInformed(Act(p, Handle(id, e)), id) <==> Serial(p, Handle(id, e))
  {
    StartIsGood(true);
    RunKeeps(START, actions, true);
    var p := RunAll(START, actions);
    if Busy(p.d, id) {
      OverlapMisinforms(p, id, e);
    } else {
      SerialEndsInformed(p, id, e);
    }
  }

  // ---- callbacks that complete as one step are serial -------------------------------------------

  /** A handler, an expired timer's whole callback, or one of the two halves of Stop. */
  datatype Atomic =
    | Handler(id: string, e: Event)
    | Fire(i: nat, ok: bool)
    | Silence(i: nat)  // a timer that fires after Stop
    | BeginStop
    | EndStop

  function Unfold(a: Atomic): seq<Action> {
    match a
    case Handler(id, e) => [Handle(id, e)]
    case Fire(i, ok) =>
      [Move(TimerExpire(i)), Move(CallbackLock(i)), Move(PublishStart(i)), Move(PublishEnd(i, ok))]
    case Silence(i) => [Move(TimerExpire(i)), Move(CallbackLock(i))]
    case BeginStop => [Move(StopLock)]
    case EndStop => [Move(StopWaitReturns)]
  }

  predicate CanDo(p: System, a: Atomic) {
    match a
    case Handler(_, _) => true
    case Fire(i, _) => Is(p.d, i, Armed) && i < |p.d.log| && !p.d.stopped
    case Silence(i) => Is(p.d, i, Armed) && i < |p.d.log| && p.d.stopped
    case BeginStop => true
    case EndStop => Enabled(p.d, StopWaitReturns)
  }

  function Do(p: System, a: Atomic): System
    requires CanDo(p, a)
  {
    match a
    case Handler(id, e) => Act(p, Handle(id, e))
    case Fire(i, ok) =>
      var locked := Next(Next(p.d, TimerExpire(i)), CallbackLock(i));
      p.(d := Next(Next(locked, PublishStart(i)), PublishEnd(i, ok)))
    case Silence(i) => p.(d := Next(Next(p.d, TimerExpire(i)), CallbackLock(i)))
    case BeginStop => p.(d := Next(p.d, StopLock))
    case EndStop => p.(d := Next(p.d, StopWaitReturns))
  }

  ghost predicate AtomicRun(p: System, steps: seq<Atomic>)
    decreases |steps|
  {
    steps == [] || (CanDo(p, steps[0]) && AtomicRun(Do(p, steps[0]), steps[1..]))
  }

  ghost function RunAtomic(p: System, steps: seq<Atomic>): System
    requires AtomicRun(p, steps)
    decreases |steps|
  {
    if steps == [] then p else RunAtomic(Do(p, steps[0]), steps[1..])
  }

  ghost predicate NoneBusy(d: State) {
    forall key :: !Busy(d, key)
  }

  /** With atomic callbacks no key is ever busy between steps, so every handler may run. */
  lemma AtomicIsSerial(p: System, a: Atomic)
    requires Shape(p.d) && NoneBusy(p.d) && CanDo(p, a)
    ensures SerialRun(p, Unfold(a)) && RunAll(p, Unfold(a)) == Do(p, a)
    ensures Shape(Do(p, a).d) && NoneBusy(Do(p, a).d)
  {
    var w := Unfold(a);
    if a.Fire? {
      FireIsSerial(p, a.i, a.ok);
    } else if a.Silence? {
      SilenceIsSerial(p, a.i);
    } else {
      UnrollRun(p, w);
    }
    DoLeavesIdle(p, a);
  }

  lemma DoLeavesIdle(p: System, a: Atomic)
    requires Shape(p.d) && NoneBusy(p.d) && CanDo(p, a)
    ensures Shape(Do(p, a).d) && NoneBusy(Do(p, a).d)
  {
    IdleStays(p.d, Do(p, a).d);
  }

  /** Finished, cancelled and silenced timers keep nobody busy; nor does a new one. */
  lemma IdleStays(d: State, t: State)
    requires Shape(d) && NoneBusy(d) && |t.log| == |t.phase| >= |d.log|
    requires forall i: nat :: i < |d.log| ==> t.log[i] == d.log[i]
    requires forall i: nat :: i < |t.phase| && (t.phase[i].Expired? || Flying(t.phase[i])) ==>
               i < |d.phase| && d.phase[i] == t.phase[i]
    ensures NoneBusy(t)
  {
    forall key ensures !Busy(t, key) {
      assert !Busy(d, key);
    }
  }

  lemma UnrollRun(p: System, actions: seq<Action>)
    requires actions != [] && Possible(p, actions[0]) && Serial(p, actions[0])
    ensures SerialRun(p, actions) <==> SerialRun(Act(p, actions[0]), actions[1..])
    ensures SerialRun(p, actions) ==> RunAll(p, actions) == RunAll(Act(p, actions[0]), actions[1..])
  {
  }

  lemma FireIsSerial(p: System, i: nat, ok: bool)
    requires CanDo(p, Fire(i, ok))
    ensures SerialRun(p, Unfold(Fire(i, ok))) && RunAll(p, Unfold(Fire(i, ok))) == Do(p, Fire(i, ok))
  {
    var w := Unfold(Fire(i, ok));
    var p1 := Act(p, w[0]);
    var p2 := Act(p1, w[1]);
    var p3 := Act(p2, w[2]);
    UnrollRun(p, w);
    UnrollRun(p1, w[1..]);
    UnrollRun(p2, w[2..]);
    UnrollRun(p3, w[3..]);
    assert w[1..][1..] == w[2..] && w[2..][1..] == w[3..] && w[3..][1..] == [];
  }

  lemma SilenceIsSerial(p: System, i: nat)
    requires CanDo(p, Silence(i))
    ensures SerialRun(p, Unfold(Silence(i))) && RunAll(p, Unfold(Silence(i))) == Do(p, Silence(i))
  {
    var w := Unfold(Silence(i));
    UnrollRun(p, w);
    UnrollRun(Act(p, w[0]), w[1..]);
    assert w[1..][1..] == [];
  }

  /** The first step of a run, and how it continues. */
  lemma FirstStep(p: System, actions: seq<Action>, more: seq<Action>) returns (q: System)
    requires actions != [] && SerialRun(p, actions)
    ensures SerialRun(q, actions[1..]) && RunAll(p, actions) == RunAll(q, actions[1..])
    ensures SerialRun(q, actions[1..] + more) ==>
              && SerialRun(p, actions + more)
              && RunAll(p, actions + more) == RunAll(q, actions[1..] + more)
  {
    q := Act(p, actions[0]);
    assert (actions + more)[1..] == actions[1..] + more;
    UnrollRun(p, actions + more);
  }

  lemma {:induction false} SerialConcat(p: System, a: seq<Action>, b: seq<Action>)
    requires SerialRun(p, a) && SerialRun(RunAll(p, a), b)
    ensures SerialRun(p, a + b) && RunAll(p, a + b) == RunAll(RunAll(p, a), b)
    decreases |a|
  {
    if a == [] {
      assert a + b == b;
    } else {
      var q := FirstStep(p, a, b);
      SerialConcat(q, a[1..], b);
    }
  }

  function Flatten(steps: seq<Atomic>): seq<Action> {
    if steps == [] then [] else Unfold(steps[0]) + Flatten(steps[1..])
  }

  lemma {:induction false} AtomicRunIsSerial(p: System, steps: seq<Atomic>)
    requires Shape(p.d) && NoneBusy(p.d) && AtomicRun(p, steps)
    ensures SerialRun(p, Flatten(steps)) && RunAll(p, Flatten(steps)) == RunAtomic(p, steps)
    ensures NoneBusy(RunAtomic(p, steps).d)
    decreases |steps|
  {
    if steps != [] {
      AtomicIsSerial(p, steps[0]);
      AtomicRunIsSerial(Do(p, steps[0]), steps[1..]);
      SerialConcat(p, Unfold(steps[0]), Flatten(steps[1..]));
    }
  }

  predicate Succeeds(a: Atomic) {
    a.Fire? ==> a.ok
  }

  lemma {:induction false} SuccessesDropNothing(steps: seq<Atomic>)
    requires forall a :: a in steps ==> Succeeds(a)
    ensures forall a :: a in Flatten(steps) ==> NoDrop(a)
  {
    if steps != [] {
      assert Succeeds(steps[0]);
      SuccessesDropNothing(steps[1..]);
    }
  }

  /**
   * When handlers and expired callbacks each complete as one step, nothing else need be said:
   * deliveries keep the order of the reports due and, if every publish succeeds, whenever no
   * timer is pending the last one is the composite of the current view, or DELETED.
   */
  lemma AtomicDelivery(steps: seq<Atomic>, id: string)
    requires AtomicRun(START, steps)
    ensures var p := RunAtomic(START, steps);
            && DeliveredInLog(p.d) && Subsequence(Delivered(p.d, id), Stream(Of(p.history, id)))
            && ((forall a :: a in steps ==> Succeeds(a)) && !p.d.stopped && !Live(p.d, id) ==> Informed(p, id))
  {
    AtomicRunIsSerial(START, steps);
    DeliveryKeepsOrder(Flatten(steps), id);
    if forall a :: a in steps ==> Succeeds(a) {
      SuccessesDropNothing(steps);
      DeliveryCatchesUp(Flatten(steps), id);
    }
  }
}
