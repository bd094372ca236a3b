// The incremental status monitor: cached per-instance state, updated in place.
// Every handler is proved to report exactly what History recomputes from scratch.
module Reconcile {
  import opened Wrappers
  import opened Status
  import opened History

  /** An element of `status.conditions` as decoded from JSON: any field may be missing. */
  datatype RawCondition =
    | NotAMap
    | Fields(ctype: Option<string>, status: Option<string>, message: Option<string>)

  /** A watched object; `conditions` is None when there is no list of conditions to read. */
  datatype Resource = Resource(id: string, conditions: Option<seq<RawCondition>>, deleting: bool)

  datatype ResourceType = HostedCluster | NodePool

  /** What an informer hands to a delete handler. */
  datatype Deleted = Object(resource: Resource) | Tombstone(last: Deleted) | Foreign

  // ---- reading conditions ---------------------------------------------------------

  function Parse(raw: RawCondition): Option<Condition> {
    match raw
    case NotAMap => None
    case Fields(t, s, m) => Some(Condition(t.GetOr(""), s.GetOr(""), m.GetOr(""), 0))
  }

  function ParseAll(raw: seq<RawCondition>): seq<Condition> {
    if raw == [] then []
    else ParseAll(raw[..|raw|-1]) + ToSeq(Parse(raw[|raw|-1]))
  }

  function ConditionsOf(r: Resource): seq<Condition> {
    if r.conditions.None? then [] else ParseAll(r.conditions.value)
  }

  /** Conditions are read element by element, in order. */
  lemma {:induction false} ParsesInOrder(a: seq<RawCondition>, b: seq<RawCondition>)
    ensures ParseAll(a + b) == ParseAll(a) + ParseAll(b)
    decreases |b|
  {
    if b == [] {
      assert a + b == a;
    } else {
      ParsesInOrder(a, b[..|b|-1]);
      assert (a + b)[..|a + b|-1] == a + b[..|b|-1];
    }
  }

  /** A map gives one condition, its missing fields empty; anything else leaves no trace. */
  lemma ParsesElement(raw: RawCondition)
    ensures raw.NotAMap? ==> ParseAll([raw]) == []
    ensures raw.Fields? ==>
              && |ParseAll([raw])| == 1
              && ParseAll([raw])[0].ctype == (if raw.ctype.Some? then raw.ctype.value else "")
              && ParseAll([raw])[0].status == (if raw.status.Some? then raw.status.value else "")
              && ParseAll([raw])[0].message == (if raw.message.Some? then raw.message.value else "")
  {
    assert [raw][..0] == [];
  }

  method ExtractConditions(r: Resource) returns (cs: seq<Condition>)
    ensures cs == ConditionsOf(r)
  {
    cs := [];
    if r.conditions.None? {
      return;
    }
    var raw := r.conditions.value;
    for i := 0 to |raw|
      invariant cs == ParseAll(raw[..i])
    {
      assert raw[..i+1][..i] == raw[..i];
      if raw[i].Fields? {
        cs := cs + [Parse(raw[i]).value];
      }
    }
    assert raw[..|raw|] == raw;
  }

  // ---- one instance -----------------------------------------------------------------

  function EventOf(r: Resource, rt: ResourceType): Event {
    match rt
    case HostedCluster => HcSeen(HcObs(ConditionsOf(r), r.deleting))
    case NodePool => NpSeen(ConditionsOf(r))
  }

  class Instance {
    var hcStatus: Option<ClusterStatus>
    var npStatus: Option<ClusterStatus>
    var hcMsg: string
    var npMsg: string
    var lastPublished: Option<ClusterStatus>

    constructor ()
      ensures hcStatus.None? && npStatus.None? && lastPublished.None?
      ensures hcMsg == "" && npMsg == ""
    {
      hcStatus, npStatus, lastPublished := None, None, None;
      hcMsg, npMsg := "", "";
    }

    /** The cached fields are what the instance's history `h` determines. */
    ghost predicate Holds(h: seq<Event>)
      reads this
    {
      && hcStatus == (if HcView(h).None? then None else Some(HcView(h).value.Status()))
      && npStatus == NpStatus(h)
      && hcMsg == CachedHcMessage(h)
      && npMsg == NpMessage(h)
      && lastPublished == CurrentStatus(h)
    }

    function CompositeMessage(): string
      requires hcStatus.Some?
      reads this
    {
      if npStatus.Some? && Priority(npStatus.value) > Priority(hcStatus.value) then npMsg else hcMsg
    }

    /** The locked part of the reconcile step, once the instance has been found. */
    method Observe(cs: seq<Condition>, deleting: bool, rt: ResourceType, ghost h: seq<Event>)
      returns (out: Option<Notice>)
      requires Holds(h)
      modifies this
      ensures
        var e := if rt.HostedCluster? then HcSeen(HcObs(cs, deleting)) else NpSeen(cs);
        Holds(h + [e]) && out == Due(h, e)
    {
      ghost var e := if rt.HostedCluster? then HcSeen(HcObs(cs, deleting)) else NpSeen(cs);
      assert (h + [e])[..|h|] == h && (h + [e])[|h|] == e;
      match rt {
        case HostedCluster =>
          var s := MapConditions(cs, deleting);
          if hcStatus == Some(s) {
            return None;
          }
          hcMsg := HostedClusterMessage(cs, s);
          hcStatus := Some(s);
        case NodePool =>
          var s := MapNodePool(cs);
          if s.None? {
            return None;
          }
          npMsg := NodePoolMessage(cs, s.value);
          if npStatus == s {
            return None;
          }
          npStatus := s;
          if hcStatus.None? {
            return None;
          }
      }
      var composite := Composite(hcStatus.value, npStatus);
      if lastPublished == Some(composite) {
        return None;
      }
      assert CompositeMessage() == CurrentMessage(h + [e]) by {
        MessageIsFreshOnChange(h, e);
      }
      lastPublished := Some(composite);
      var msg := CompositeMessage();
      out := Some(Notice(composite, msg));
    }

    /** The locked part of the NP delete handler. */
    method ForgetNodePool(ghost h: seq<Event>) returns (out: Option<Notice>)
      requires Holds(h)
      modifies this
      ensures Holds(h + [NpGone]) && out == Due(h, NpGone)
    {
      assert (h + [NpGone])[..|h|] == h;
      if hcStatus.None? {
        return None;
      }
      npStatus := None;
      npMsg := "";
      var composite := hcStatus.value;
      if lastPublished == Some(composite) {
        return None;
      }
      MessageIsFreshOnChange(h, NpGone);
      lastPublished := Some(composite);
      out := Some(Notice(composite, hcMsg));
    }
  }

  /**
   * When the composite changes, either the HC status has just changed (and its text with
   * it), or the HC has no text to go stale: a node pool never outranks a FAILED or
   * UNAVAILABLE control plane.
   */
  lemma MessageIsFreshOnChange(h: seq<Event>, e: Event)
    requires CurrentStatus(h + [e]).Some? && CurrentStatus(h + [e]) != CurrentStatus(h)
    ensures CachedHcMessage(h + [e]) == HcView(h + [e]).value.Message()
  {
    assert (h + [e])[..|h|] == h && (h + [e])[|h|] == e;
    if HcView(h + [e]).value.Status() !in {FAILED, UNAVAILABLE} {
      CachedMessageIsStaleOnlyWhenBad(h + [e]);
    } else if e.NpSeen? || e.NpGone? {
      NodePoolIsSilentUnderBadHc(h, e);
    }
  }

  // ---- all instances ------------------------------------------------------------------

  /** Nothing is known about an instance that has this history. */
  ghost predicate Unseen(h: seq<Event>) {
    HcView(h).None? && NpView(h).None? && CachedHcMessage(h) == ""
  }

  /** The payload of a delete notification, unwrapping one tombstone. */
  function Unwrap(d: Deleted): Option<Resource> {
    var inner := if d.Tombstone? then d.last else d;
    if inner.Object? && inner.resource.id != "" then Some(inner.resource) else None
  }

  /** A payload counts if it is an object with an ID, or one tombstone around such an object. */
  lemma UnwrapIff(d: Deleted, r: Resource)
    ensures Unwrap(d) == Some(r) <==> r.id != "" && (d == Object(r) || d == Tombstone(Object(r)))
  {
  }

  class ReconcileState {
    var instances: map<string, Instance>
    ghost var history: seq<Labelled<Event>>

    ghost predicate Valid()
      reads this, instances.Values
    {
      && (forall i, j :: i in instances && j in instances && i != j ==> instances[i] != instances[j])
      && (forall id :: id in instances ==> instances[id].Holds(Of(history, id)))
      && (forall id :: id !in instances ==> Unseen(Of(history, id)))
    }

    constructor ()
      ensures Valid() && history == [] && instances == map[]
    {
      instances := map[];
      history := [];
    }

    method GetOrCreate(id: string) returns (inst: Instance)
      requires Valid()
      modifies this`instances
      ensures Valid() && id in instances && instances[id] == inst
      ensures instances == old(instances)[id := inst]
      ensures id in old(instances) ==> inst == old(instances)[id]
      ensures id !in old(instances) ==> fresh(inst)
    {
      if id in instances {
        inst := instances[id];
        assert instances == instances[id := inst];
      } else {
        inst := new Instance();
        instances := instances[id := inst];
      }
    }

    method ReconcileResource(r: Resource, rt: ResourceType) returns (out: Option<Labelled<Notice>>)
      requires Valid()
      modifies this, instances.Values
      ensures Valid() && fresh(instances.Values - old(instances.Values))
      ensures r.id == "" ==> history == old(history) && out.None?
      ensures r.id != "" ==>
                && history == old(history) + [Labelled(r.id, EventOf(r, rt))]
                && ToSeq(out) == Tagged(r.id, Due(Of(old(history), r.id), EventOf(r, rt)))
    {
      if r.id == "" {
        return None;
      }
      var cs := ExtractConditions(r);
      var inst := GetOrCreate(r.id);
      var n := ObserveKnown(r.id, inst, cs, r.deleting, rt);
      out := if n.Some? then Some(Labelled(r.id, n.value)) else None;
    }

    /** Updates one known instance in place and extends the history by the event. */
    method ObserveKnown(id: string, inst: Instance, cs: seq<Condition>, deleting: bool, rt: ResourceType)
      returns (n: Option<Notice>)
      requires Valid() && id in instances && instances[id] == inst
      modifies this`history, inst
      ensures Valid()
      ensures var e := if rt.HostedCluster? then HcSeen(HcObs(cs, deleting)) else NpSeen(cs);
              history == old(history) + [Labelled(id, e)] && n == Due(Of(old(history), id), e)
    {
      n := inst.Observe(cs, deleting, rt, Of(history, id));
      Record(id, if rt.HostedCluster? then HcSeen(HcObs(cs, deleting)) else NpSeen(cs));
    }

    method HandleDeleteHostedCluster(d: Deleted) returns (out: Option<Labelled<Notice>>)
      requires Valid()
      modifies this
      ensures Valid() && fresh(instances.Values - old(instances.Values))
      ensures Unwrap(d).None? ==> history == old(history) && out.None?
      ensures Unwrap(d).Some? ==>
                var id := Unwrap(d).value.id;
                && history == old(history) + [Labelled(id, HcGone)]
                && ToSeq(out) == Tagged(id, Due(Of(old(history), id), HcGone))
    {
      var inner := if d.Tombstone? then d.last else d;
      if !inner.Object? || inner.resource.id == "" {
        return None;
      }
      var id := inner.resource.id;
      instances := instances - {id};
      Record(id, HcGone);
      out := Some(Labelled(id, Notice(DELETED, "")));
    }

    method HandleDeleteNodePool(d: Deleted) returns (out: Option<Labelled<Notice>>)
      requires Valid()
      modifies this, instances.Values
      ensures Valid() && fresh(instances.Values - old(instances.Values))
      ensures Unwrap(d).None? ==> history == old(history) && out.None?
      ensures Unwrap(d).Some? ==>
                var id := Unwrap(d).value.id;
                && history == old(history) + [Labelled(id, NpGone)]
                && ToSeq(out) == Tagged(id, Due(Of(old(history), id), NpGone))
      ensures out.Some? ==> out.value.item.status != DELETED
    {
      var inner := if d.Tombstone? then d.last else d;
      if !inner.Object? || inner.resource.id == "" {
        return None;
      }
      var id := inner.resource.id;
      var n := None;
      CurrentIsNeverDeleted(Of(history, id) + [NpGone]);
      if id in instances {
        n := instances[id].ForgetNodePool(Of(history, id));
      }
      Record(id, NpGone);
      out := if n.Some? then Some(Labelled(id, n.value)) else None;
    }

    /** Extends the history with an event the cached state already accounts for. */
    ghost method Record(id: string, e: Event)
      requires forall i, j :: i in instances && j in instances && i != j ==> instances[i] != instances[j]
      requires forall i :: i != id && i in instances ==> instances[i].Holds(Of(history, i))
      requires forall i :: i != id && i !in instances ==> Unseen(Of(history, i))
      requires id in instances ==> instances[id].Holds(Of(history, id) + [e])
      requires id !in instances ==> Unseen(Of(history, id) + [e])
      modifies this`history
      ensures Valid() && history == old(history) + [Labelled(id, e)]
    {
      forall i ensures Of(history + [Labelled(id, e)], i) == if i == id then Of(history, i) + [e] else Of(history, i) {
        OfSnoc(history, Labelled(id, e), i);
      }
      history := history + [Labelled(id, e)];
    }
  }

  // ---- whole runs -----------------------------------------------------------------------

  /** A call of one of the informer handlers. */
  datatype Delivery =
    | Observed(resource: Resource, rt: ResourceType)
    | HcRemoved(payload: Deleted)
    | NpRemoved(payload: Deleted)

  /** The event a delivery amounts to; deliveries without a usable instance ID are dropped. */
  function EventsOf(d: Delivery): seq<Labelled<Event>> {
    match d
    case Observed(r, rt) => if r.id == "" then [] else [Labelled(r.id, EventOf(r, rt))]
    case HcRemoved(p) => if Unwrap(p).None? then [] else [Labelled(Unwrap(p).value.id, HcGone)]
    case NpRemoved(p) => if Unwrap(p).None? then [] else [Labelled(Unwrap(p).value.id, NpGone)]
  }

  function AllEvents(ds: seq<Delivery>): seq<Labelled<Event>> {
    if ds == [] then []
    else AllEvents(ds[..|ds|-1]) + EventsOf(ds[|ds|-1])
  }

  /** An object of this instance, or one tombstone around it. */
  ghost predicate Carries(p: Deleted, id: string) {
    exists r: Resource :: r.id == id && (p == Object(r) || p == Tombstone(Object(r)))
  }

  /** Which callback stands for which event; without a usable ID there is none. */
  lemma DeliveryMeaning(d: Delivery, id: string, e: Event)
    ensures EventsOf(d) == [Labelled(id, e)] <==>
              && id != ""
              && match d {
                case Observed(r, HostedCluster) => r.id == id && e == HcSeen(HcObs(ConditionsOf(r), r.deleting))
                case Observed(r, NodePool) => r.id == id && e == NpSeen(ConditionsOf(r))
                case HcRemoved(p) => e == HcGone && Carries(p, id)
                case NpRemoved(p) => e == NpGone && Carries(p, id)
              }
    ensures |EventsOf(d)| <= 1
  {
  }

  /** One informer callback: the reports grow by what the handler returns. */
  method Deliver(state: ReconcileState, d: Delivery) returns (out: seq<Labelled<Notice>>)
    requires state.Valid()
    modifies state, state.instances.Values
    ensures state.Valid() && fresh(state.instances.Values - old(state.instances.Values))
    ensures state.history == old(state.history) + EventsOf(d)
    ensures Reports(state.history) == Reports(old(state.history)) + out
  {
    ghost var before := state.history;
    var n: Option<Labelled<Notice>>;
    match d {
      case Observed(r, rt) => n := state.ReconcileResource(r, rt);
      case HcRemoved(p) => n := state.HandleDeleteHostedCluster(p);
      case NpRemoved(p) => n := state.HandleDeleteNodePool(p);
    }
    if EventsOf(d) != [] {
      ReportsSnoc(before, EventsOf(d)[0]);
    }
    out := ToSeq(n);
  }

  /** The monitor, run over any sequence of deliveries, reports what recomputation reports. */
  method Monitor(ds: seq<Delivery>) returns (reported: seq<Labelled<Notice>>)
    ensures reported == Reports(AllEvents(ds))
  {
    var state := new ReconcileState();
    reported := [];
    for i := 0 to |ds|
      invariant state.Valid() && fresh(state) && fresh(state.instances.Values)
      invariant state.history == AllEvents(ds[..i])
      invariant reported == Reports(state.history)
    {
      assert ds[..i+1][..i] == ds[..i];
      var out := Deliver(state, ds[i]);
      reported := reported + out;
    }
    assert ds[..|ds|] == ds;
  }
}
