// Level-based specification of the status monitor: what it must report is recomputed from
// the whole history of one instance, with no cached state. Reconcile.dfy proves that the
// incremental monitor reports exactly this.
module History {
  import opened Wrappers
  import opened Status

  /** One observation of an instance's control plane (HC) or node pool (NP). */
  datatype Event =
    | HcSeen(hc: HcObs)
    | NpSeen(np: seq<Condition>)
    | HcGone
    | NpGone

  datatype HcObs = HcObs(conditions: seq<Condition>, deleting: bool) {
    function Status(): ClusterStatus {
      MapConditions(conditions, deleting)
    }
    function Message(): string {
      HostedClusterMessage(conditions, Status())
    }
  }

  /** What is reported: a status and its message. */
  datatype Notice = Notice(status: ClusterStatus, message: string)

  // ---- the current view -------------------------------------------------------

  /** The latest HC observation since the HC was last deleted. */
  function HcView(h: seq<Event>): Option<HcObs> {
    if h == [] then None
    else match h[|h|-1]
      case HcSeen(o) => Some(o)
      case HcGone => None
      case _ => HcView(h[..|h|-1])
  }

  /**
   * The latest non-empty NP observation since the HC was last deleted. An NP deletion only
   * counts when the HC had been seen before it.
   */
  function NpView(h: seq<Event>): Option<seq<Condition>> {
    if h == [] then None
    else
      var before := h[..|h|-1];
      match h[|h|-1]
      case HcGone => None
      case HcSeen(_) => NpView(before)
      case NpSeen(cs) => if MapNodePool(cs).Some? then Some(cs) else NpView(before)
      case NpGone => if HcView(before).Some? then None else NpView(before)
  }

  function NpStatus(h: seq<Event>): Option<ClusterStatus> {
    if NpView(h).None? then None else MapNodePool(NpView(h).value)
  }

  function NpMessage(h: seq<Event>): string {
    if NpStatus(h).None? then "" else NodePoolMessage(NpView(h).value, NpStatus(h).value)
  }

  /** Worst of both resources; None while the HC is unseen. */
  function CurrentStatus(h: seq<Event>): Option<ClusterStatus> {
    if HcView(h).None? then None else Some(Composite(HcView(h).value.Status(), NpStatus(h)))
  }

  /** The latest text of the resource that drives the composite; the HC wins ties. */
  function CurrentMessage(h: seq<Event>): string
    requires HcView(h).Some?
  {
    var hc := HcView(h).value;
    if NpStatus(h).Some? && Priority(NpStatus(h).value) > Priority(hc.Status())
    then NpMessage(h)
    else hc.Message()
  }

  // ---- what must be reported ----------------------------------------------------

  /** The notice due for event `e` after history `h`. */
  function Due(h: seq<Event>, e: Event): Option<Notice> {
    if e.HcGone? then Some(Notice(DELETED, ""))
    else
      var now := CurrentStatus(h + [e]);
      if now.None? || now == CurrentStatus(h) then None
      else Some(Notice(now.value, CurrentMessage(h + [e])))
  }

  function ToSeq<T>(o: Option<T>): seq<T> {
    if o.Some? then [o.value] else []
  }

  function Stream(h: seq<Event>): seq<Notice> {
    if h == [] then []
    else Stream(h[..|h|-1]) + ToSeq(Due(h[..|h|-1], h[|h|-1]))
  }

  lemma StreamSnoc(h: seq<Event>, e: Event)
    ensures Stream(h + [e]) == Stream(h) + ToSeq(Due(h, e))
  {
    assert (h + [e])[..|h|] == h;
  }

  // ---- the views mean what they say ----------------------------------------------

  ghost predicate LatestHc(h: seq<Event>, i: int, o: HcObs) {
    && 0 <= i < |h| && h[i] == HcSeen(o)
    && forall j :: i < j < |h| ==> !h[j].HcSeen? && !h[j].HcGone?
  }

  lemma {:induction false} HcViewMeaning(h: seq<Event>, o: HcObs)
    ensures HcView(h) == Some(o) <==> exists i :: LatestHc(h, i, o)
  {
    if h != [] {
      var n := |h| - 1;
      var init := h[..n];
      HcViewMeaning(init, o);
      if h[n].HcSeen? {
        assert LatestHc(h, n, h[n].hc);
      } else if !h[n].HcGone? {
        forall i ensures LatestHc(h, i, o) <==> LatestHc(init, i, o) {
        }
      }
    }
  }

  ghost predicate LatestNp(h: seq<Event>, i: int, cs: seq<Condition>) {
    && 0 <= i < |h| && h[i] == NpSeen(cs) && |cs| > 0
    && forall j :: i < j < |h| ==> Keeps(h, j)
  }

  /** Event j leaves the node pool's last known conditions in place. */
  ghost predicate Keeps(h: seq<Event>, j: int)
    requires 0 <= j < |h|
  {
    match h[j]
    case HcSeen(_) => true
    case HcGone => false
    case NpSeen(cs) => |cs| == 0
    case NpGone => HcView(h[..j]).None?
  }

  lemma {:induction false} NpViewMeaning(h: seq<Event>, cs: seq<Condition>)
    ensures NpView(h) == Some(cs) <==> exists i :: LatestNp(h, i, cs)
  {
    if h != [] {
      var n := |h| - 1;
      var init := h[..n];
      NpViewMeaning(init, cs);
      forall j | 0 <= j < n ensures Keeps(h, j) <==> Keeps(init, j) {
        assert h[..j] == init[..j];
      }
      if Keeps(h, n) {
        forall i ensures LatestNp(h, i, cs) <==> LatestNp(init, i, cs) {
          if LatestNp(h, i, cs) {
            assert i != n;
            assert forall j :: i < j < n ==> Keeps(init, j);
          }
        }
      } else {
        assert forall i :: LatestNp(h, i, cs) ==> i == n;
        assert h[n] == NpSeen(cs) && |cs| > 0 ==> LatestNp(h, n, cs);
      }
    }
  }

  // ---- the shape of the stream ----------------------------------------------------

  /** The last notice is the current composite, or DELETED when the HC is gone. */
  lemma {:induction false} LastNoticeIsCurrent(h: seq<Event>)
    ensures CurrentStatus(h).Some? ==>
              Stream(h) != [] && Stream(h)[|Stream(h)|-1].status == CurrentStatus(h).value
    ensures CurrentStatus(h).None? ==>
              Stream(h) == [] || Stream(h)[|Stream(h)|-1].status == DELETED
  {
    if h != [] {
      var init, e := h[..|h|-1], h[|h|-1];
      LastNoticeIsCurrent(init);
      assert init + [e] == h;
      DueTracksCurrent(init, e);
      LastOfStream(Stream(init), Due(init, e));
    }
  }

  lemma LastOfStream(s: seq<Notice>, n: Option<Notice>)
    ensures n.Some? ==> s + ToSeq(n) != [] && (s + ToSeq(n))[|s + ToSeq(n)|-1] == n.value
    ensures n.None? ==> s + ToSeq(n) == s
  {
  }

  /** A notice is due exactly when the composite changes to a status, or the HC is deleted. */
  lemma DueTracksCurrent(h: seq<Event>, e: Event)
    ensures Due(h, e).Some? <==>
              e.HcGone? || (CurrentStatus(h + [e]).Some? && CurrentStatus(h + [e]) != CurrentStatus(h))
    ensures Due(h, e).Some? ==>
              Due(h, e).value.status == if e.HcGone? then DELETED else CurrentStatus(h + [e]).value
    ensures CurrentStatus(h + [e]).None? && !e.HcGone? ==> CurrentStatus(h).None?
    ensures e.HcGone? ==> CurrentStatus(h + [e]).None?
  {
    assert (h + [e])[..|h|] == h;
  }

  lemma CurrentIsNeverDeleted(h: seq<Event>)
    ensures CurrentStatus(h) != Some(DELETED)
  {
  }

  // ---- what a notice says, from the observations alone ------------------------------------

  ghost predicate SeesHc(h: seq<Event>, o: HcObs) {
    exists i :: LatestHc(h, i, o)
  }

  ghost predicate SeesNp(h: seq<Event>, cs: seq<Condition>) {
    exists i :: LatestNp(h, i, cs)
  }

  /** The status of the instance as the latest observations have it. */
  ghost predicate Shows(h: seq<Event>, s: ClusterStatus) {
    exists o :: SeesHc(h, o) && ShownWith(h, o, s)
  }

  ghost predicate ShownWith(h: seq<Event>, o: HcObs, s: ClusterStatus) {
    || (exists cs :: SeesNp(h, cs) && Composite(o.Status(), MapNodePool(cs)) == s)
    || (s == o.Status() && forall cs :: !SeesNp(h, cs))
  }

  /** The text that belongs to it: the control plane's, unless the node pool made the status. */
  ghost predicate Says(h: seq<Event>, o: HcObs, n: Notice) {
    if n.status == o.Status() then HcText(o.conditions, n.status, n.message)
    else exists cs :: SeesNp(h, cs) && MapNodePool(cs) == Some(n.status) && NpText(cs, n.status, n.message)
  }

  lemma ShowsIff(h: seq<Event>, s: ClusterStatus)
    ensures Shows(h, s) <==> CurrentStatus(h) == Some(s)
  {
    forall o ensures SeesHc(h, o) <==> HcView(h) == Some(o) {
      HcViewMeaning(h, o);
    }
    forall cs ensures SeesNp(h, cs) <==> NpView(h) == Some(cs) {
      NpViewMeaning(h, cs);
    }
    if HcView(h).Some? {
      var o := HcView(h).value;
      assert SeesHc(h, o);
      assert ShownWith(h, o, s) <==> s == Composite(o.Status(), NpStatus(h)) by {
        if NpView(h).Some? {
          NpViewIsMapped(h);
          assert SeesNp(h, NpView(h).value);
        }
      }
    }
  }

  lemma {:induction false} NpViewIsMapped(h: seq<Event>)
    requires NpView(h).Some?
    ensures MapNodePool(NpView(h).value).Some?
  {
    var before := h[..|h|-1];
    if NpView(before).Some? {
      NpViewIsMapped(before);
    }
  }

  /** A notice is due exactly when the HC goes, or the status shown becomes another one. */
  lemma DueIff(h: seq<Event>, e: Event)
    ensures Due(h, e).Some? <==> e.HcGone? || exists s :: Shows(h + [e], s) && !Shows(h, s)
  {
    forall s ensures Shows(h, s) <==> CurrentStatus(h) == Some(s) {
      ShowsIff(h, s);
    }
    forall s ensures Shows(h + [e], s) <==> CurrentStatus(h + [e]) == Some(s) {
      ShowsIff(h + [e], s);
    }
  }

  /** It gives the status shown, with the text that belongs to it; a deletion says nothing. */
  lemma NoticeMeaning(h: seq<Event>, e: Event)
    requires Due(h, e).Some?
    ensures e.HcGone? ==> Due(h, e).value == Notice(DELETED, "")
    ensures !e.HcGone? ==>
              && Shows(h + [e], Due(h, e).value.status)
              && (exists o :: SeesHc(h + [e], o))
              && forall o :: SeesHc(h + [e], o) ==> Says(h + [e], o, Due(h, e).value)
  {
    if !e.HcGone? {
      var g, n := h + [e], Due(h, e).value;
      ShowsIff(g, n.status);
      forall o ensures SeesHc(g, o) <==> HcView(g) == Some(o) {
        HcViewMeaning(g, o);
      }
      TextBelongs(g);
    }
  }

  lemma TextBelongs(h: seq<Event>)
    requires HcView(h).Some?
    ensures Says(h, HcView(h).value, Notice(CurrentStatus(h).value, CurrentMessage(h)))
  {
    var o := HcView(h).value;
    HcTextHolds(o.conditions, o.Status());
    if NpView(h).Some? {
      NpViewIsMapped(h);
      NpViewMeaning(h, NpView(h).value);
      assert SeesNp(h, NpView(h).value);
      NpTextHolds(NpView(h).value);
    }
  }

  /** Each notice and the one after it satisfy `ok`. */
  ghost predicate Pairwise(s: seq<Notice>, ok: (ClusterStatus, ClusterStatus) -> bool) {
    forall i :: 0 <= i < |s| - 1 ==> ok(s[i].status, s[i+1].status)
  }

  lemma PairwiseSnoc(s: seq<Notice>, n: Option<Notice>, ok: (ClusterStatus, ClusterStatus) -> bool)
    requires Pairwise(s, ok)
    requires n.Some? && s != [] ==> ok(s[|s|-1].status, n.value.status)
    ensures Pairwise(s + ToSeq(n), ok)
  {
  }

  const DIFFERENT_OR_DELETED: (ClusterStatus, ClusterStatus) -> bool := (a, b) => a != b || a == DELETED

  /** Neighbours in the stream differ, except that a deletion may be reported again. */
  lemma {:induction false} NeighboursDiffer(h: seq<Event>)
    ensures Pairwise(Stream(h), DIFFERENT_OR_DELETED)
  {
    if h != [] {
      var init, e := h[..|h|-1], h[|h|-1];
      NeighboursDiffer(init);
      LastNoticeIsCurrent(init);
      PairwiseSnoc(Stream(init), Due(init, e), DIFFERENT_OR_DELETED);
    }
  }

  /** A status is reported only once the HC was observed after the last deletion. */
  lemma OnlyObservedClustersAreReported(h: seq<Event>, e: Event)
    requires Due(h, e).Some? && Due(h, e).value.status != DELETED
    ensures exists i, o :: LatestHc(h + [e], i, o)
  {
    HcViewMeaning(h + [e], HcView(h + [e]).value);
  }

  /** The node pool can never outrank an HC that is UNAVAILABLE or worse. */
  lemma NodePoolIsSilentUnderBadHc(h: seq<Event>, e: Event)
    requires e.NpSeen? || e.NpGone?
    requires HcView(h).Some? && HcView(h).value.Status() in {UNAVAILABLE, FAILED, DELETING}
    ensures Due(h, e).None?
  {
    assert (h + [e])[..|h|] == h;
    assert HcView(h + [e]) == HcView(h);
    BadHcDecides(h);
    BadHcDecides(h + [e]);
  }

  lemma BadHcDecides(h: seq<Event>)
    requires HcView(h).Some? && HcView(h).value.Status() in {UNAVAILABLE, FAILED, DELETING}
    ensures CurrentStatus(h) == Some(HcView(h).value.Status())
  {
    if NpView(h).Some? {
      NodePoolFollowsPrecedence(NpView(h).value);
    }
  }

  /** Until the HC is gone, a set deletion timestamp stays set. */
  ghost predicate DeletionSticks(h: seq<Event>) {
    forall i :: 0 <= i < |h| && h[i].HcSeen? && HcView(h[..i]).Some? && HcView(h[..i]).value.deleting
      ==> h[i].hc.deleting
  }

  lemma DeletionSticksInit(h: seq<Event>)
    requires h != [] && DeletionSticks(h)
    ensures DeletionSticks(h[..|h|-1])
  {
    var init := h[..|h|-1];
    forall i | 0 <= i < |init| && init[i].HcSeen? && HcView(init[..i]).Some? && HcView(init[..i]).value.deleting
      ensures init[i].hc.deleting
    {
      assert init[..i] == h[..i];
    }
  }

  lemma CompositeIsDeletingIff(h: seq<Event>)
    ensures CurrentStatus(h) == Some(DELETING) <==> HcView(h).Some? && HcView(h).value.deleting
  {
  }

  /** Once DELETING, nothing but the HC's disappearance is reported. */
  lemma DeletingIsSilent(h: seq<Event>, e: Event)
    requires DeletionSticks(h + [e]) && CurrentStatus(h) == Some(DELETING) && !e.HcGone?
    ensures Due(h, e).None?
  {
    assert (h + [e])[..|h|] == h && (h + [e])[|h|] == e;
    CompositeIsDeletingIff(h);
    CompositeIsDeletingIff(h + [e]);
  }

  const DELETED_AFTER_DELETING: (ClusterStatus, ClusterStatus) -> bool := (a, b) => a == DELETING ==> b == DELETED

  lemma {:induction false} AfterDeletingOnlyDeleted(h: seq<Event>)
    requires DeletionSticks(h)
    ensures Pairwise(Stream(h), DELETED_AFTER_DELETING)
  {
    if h != [] {
      var init, e := h[..|h|-1], h[|h|-1];
      DeletionSticksInit(h);
      AfterDeletingOnlyDeleted(init);
      assert init + [e] == h;
      if Stream(init) != [] && Stream(init)[|Stream(init)|-1].status == DELETING && Due(init, e).Some? {
        DueAfterDeleting(init, e);
      }
      PairwiseSnoc(Stream(init), Due(init, e), DELETED_AFTER_DELETING);
    }
  }

  lemma DueAfterDeleting(h: seq<Event>, e: Event)
    requires DeletionSticks(h + [e])
    requires Stream(h) != [] && Stream(h)[|Stream(h)|-1].status == DELETING && Due(h, e).Some?
    ensures Due(h, e).value.status == DELETED
  {
    LastNoticeIsCurrent(h);
    if !e.HcGone? {
      DeletingIsSilent(h, e);
    }
  }

  // ---- what the monitor may keep instead of the history ---------------------------

  /** The HC text of the first observation in the current run of equal HC statuses. */
  function CachedHcMessage(h: seq<Event>): string {
    if h == [] then ""
    else
      var before := h[..|h|-1];
      match h[|h|-1]
      case HcSeen(o) =>
        if HcView(before).Some? && HcView(before).value.Status() == o.Status()
        then CachedHcMessage(before)
        else o.Message()
      case HcGone => ""
      case _ => CachedHcMessage(before)
  }

  /** That text can be out of date only while the HC is FAILED or UNAVAILABLE. */
  lemma {:induction false} CachedMessageIsStaleOnlyWhenBad(h: seq<Event>)
    requires HcView(h).Some? && HcView(h).value.Status() !in {FAILED, UNAVAILABLE}
    ensures CachedHcMessage(h) == HcView(h).value.Message()
  {
    var before := h[..|h|-1];
    if HcView(before).Some? && HcView(before).value.Status() == HcView(h).value.Status() {
      CachedMessageIsStaleOnlyWhenBad(before);
    }
  }

  // ---- interleavings -----------------------------------------------------------

  function HcPart(h: seq<Event>): seq<Event> {
    if h == [] then []
    else if h[|h|-1].HcSeen? then HcPart(h[..|h|-1]) + [h[|h|-1]]
    else HcPart(h[..|h|-1])
  }

  function NpPart(h: seq<Event>): seq<Event> {
    if h == [] then []
    else if h[|h|-1].NpSeen? then NpPart(h[..|h|-1]) + [h[|h|-1]]
    else NpPart(h[..|h|-1])
  }

  ghost predicate NoDeletions(h: seq<Event>) {
    forall i :: 0 <= i < |h| ==> !h[i].HcGone? && !h[i].NpGone?
  }

  lemma HcPartSnoc(h: seq<Event>)
    requires h != []
    ensures var init, e := h[..|h|-1], h[|h|-1];
            e.HcSeen? ==> HcPart(h) != [] && HcPart(h)[|HcPart(h)|-1] == e && HcPart(h)[..|HcPart(h)|-1] == HcPart(init)
  {
  }

  lemma NpPartSnoc(h: seq<Event>)
    requires h != []
    ensures var init, e := h[..|h|-1], h[|h|-1];
            e.NpSeen? ==> NpPart(h) != [] && NpPart(h)[|NpPart(h)|-1] == e && NpPart(h)[..|NpPart(h)|-1] == NpPart(init)
  {
  }

  lemma {:induction false} HcViewOfPart(h: seq<Event>)
    requires NoDeletions(h)
    ensures HcView(h) == HcView(HcPart(h))
  {
    if h != [] {
      HcViewOfPart(h[..|h|-1]);
      HcPartSnoc(h);
    }
  }

  lemma {:induction false} CachedMessageOfPart(h: seq<Event>)
    requires NoDeletions(h)
    ensures CachedHcMessage(h) == CachedHcMessage(HcPart(h))
  {
    if h != [] {
      CachedMessageOfPart(h[..|h|-1]);
      HcPartSnoc(h);
      HcViewOfPart(h[..|h|-1]);
    }
  }

  lemma {:induction false} NpViewOfPart(h: seq<Event>)
    requires NoDeletions(h)
    ensures NpView(h) == NpView(NpPart(h))
  {
    if h != [] {
      NpViewOfPart(h[..|h|-1]);
      NpPartSnoc(h);
    }
  }

  /**
   * Confluence: two histories that deliver the same HC events and the same NP events, each
   * in its own order, end in the same state however they are interleaved.
   */
  lemma InterleavingsAgree(h1: seq<Event>, h2: seq<Event>)
    requires NoDeletions(h1) && NoDeletions(h2)
    requires HcPart(h1) == HcPart(h2) && NpPart(h1) == NpPart(h2)
    ensures HcView(h1) == HcView(h2) && NpView(h1) == NpView(h2)
    ensures CachedHcMessage(h1) == CachedHcMessage(h2) && NpMessage(h1) == NpMessage(h2)
    ensures CurrentStatus(h1) == CurrentStatus(h2)
    ensures CurrentStatus(h1).Some? ==>
              && Stream(h1) != [] && Stream(h2) != []
              && Stream(h1)[|Stream(h1)|-1].status == Stream(h2)[|Stream(h2)|-1].status
  {
    HcViewOfPart(h1);
    HcViewOfPart(h2);
    CachedMessageOfPart(h1);
    CachedMessageOfPart(h2);
    NpViewOfPart(h1);
    NpViewOfPart(h2);
    LastNoticeIsCurrent(h1);
    LastNoticeIsCurrent(h2);
  }

  // ---- many instances -------------------------------------------------------------

  datatype Labelled<T> = Labelled(id: string, item: T)

  /** The part of a mixed sequence that belongs to one instance. */
  function Of<T>(s: seq<Labelled<T>>, id: string): (r: seq<T>)
    ensures |r| <= |s|
  {
    if s == [] then []
    else
      var rest := Of(s[..|s|-1], id);
      if s[|s|-1].id == id then rest + [s[|s|-1].item] else rest
  }

  lemma OfSnoc<T>(s: seq<Labelled<T>>, x: Labelled<T>, id: string)
    ensures Of(s + [x], id) == if x.id == id then Of(s, id) + [x.item] else Of(s, id)
  {
    assert (s + [x])[..|s|] == s;
  }

  /** Everything reported for a mixed history, in order. */
  function Reports(s: seq<Labelled<Event>>): seq<Labelled<Notice>> {
    if s == [] then []
    else
      var before, x := s[..|s|-1], s[|s|-1];
      Reports(before) + Tagged(x.id, Due(Of(before, x.id), x.item))
  }

  function Tagged(id: string, n: Option<Notice>): seq<Labelled<Notice>> {
    if n.Some? then [Labelled(id, n.value)] else []
  }

  lemma ReportsSnoc(s: seq<Labelled<Event>>, x: Labelled<Event>)
    ensures Reports(s + [x]) == Reports(s) + Tagged(x.id, Due(Of(s, x.id), x.item))
  {
    assert (s + [x])[..|s|] == s;
  }

  /** Event k of the history calls for this report. */
  ghost predicate CallsFor(s: seq<Labelled<Event>>, k: int, n: Labelled<Notice>) {
    0 <= k < |s| && s[k].id == n.id && Due(Of(s[..k], n.id), s[k].item) == Some(n.item)
  }

  /** Every report is one that some event calls for, given what came before it. */
  lemma {:induction false} ReportsAreCalledFor(s: seq<Labelled<Event>>, j: nat)
    requires j < |Reports(s)|
    ensures exists k :: CallsFor(s, k, Reports(s)[j])
  {
    var n := |s| - 1;
    if j < |Reports(s[..n])| {
      ReportsAreCalledFor(s[..n], j);
      var k :| CallsFor(s[..n], k, Reports(s)[j]);
      assert s[..n][..k] == s[..k];
      assert CallsFor(s, k, Reports(s)[j]);
    } else {
      assert CallsFor(s, n, Reports(s)[j]);
    }
  }

  /** Instances are independent: what one reports depends on its own events only. */
  lemma OfTagged(s: seq<Labelled<Notice>>, who: string, n: Option<Notice>, id: string)
    ensures Of(s + Tagged(who, n), id) == Of(s, id) + (if who == id then ToSeq(n) else [])
  {
    if n.Some? {
      OfSnoc(s, Labelled(who, n.value), id);
    } else {
      assert s + Tagged(who, n) == s;
    }
  }

  lemma {:induction false} InstancesAreIndependent(s: seq<Labelled<Event>>, id: string)
    ensures Of(Reports(s), id) == Stream(Of(s, id))
  {
    if s != [] {
      var before, x := s[..|s|-1], s[|s|-1];
      InstancesAreIndependent(before, id);
      var due := Due(Of(before, x.id), x.item);
      OfTagged(Reports(before), x.id, due, id);
      if x.id == id {
        StreamSnoc(Of(before, id), x.item);
      }
    }
  }
}
