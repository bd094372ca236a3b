// HostedCluster to API cluster, and the agreement of the API's view with the monitor's.
module Convert {
  import opened Ordering
  import opened Reconcile
  import opened Status
  import opened Versions
  import opened Wrappers
  import H = History

  /** The ways into a cluster, each absent when the object or its secret does not give it. */
  datatype Access = Access(endpoint: Option<string>, console: Option<string>, kubeconfig: Option<string>)

  const NO_ACCESS := Access(None, None, None)

  /** The parts of a HostedCluster the service reads; `access` is what can be derived from it. */
  datatype HostedCluster = HostedCluster(
    name: string, id: string, image: string,
    conditions: seq<Condition>, deleting: bool, created: Option<int>, access: Access)

  datatype Cluster = Cluster(
    id: string, name: string, status: ClusterStatus, message: Option<string>,
    version: string, createTime: Option<int>, updateTime: Option<int>, access: Access)

  /** The text of the first condition of this type that has any. */
  function ConditionMessage(cs: seq<Condition>, t: string): (r: Option<string>)
    ensures r.Some? ==> r.value != "" && exists c :: c in cs && c.ctype == t && c.message == r.value
    ensures r.None? <==> forall c :: c in cs && c.ctype == t ==> c.message == ""
  {
    if cs == [] then None
    else if cs[0].ctype == t && cs[0].message != "" then Some(cs[0].message)
    else ConditionMessage(cs[1..], t)
  }

  function StatusMessage(cs: seq<Condition>, s: ClusterStatus): Option<string> {
    match s
    case FAILED => ConditionMessage(cs, "Degraded")
    case UNAVAILABLE => ConditionMessage(cs, "Available")
    case _ => None
  }

  ghost predicate IsLatest(cs: seq<Condition>, t: int) {
    && (exists c :: c in cs && c.at == t)
    && (forall c :: c in cs ==> c.at <= t)
  }

  /** The latest transition; the creation time when there are no conditions. */
  function UpdateTime(hc: HostedCluster): Option<int> {
    if hc.conditions == [] then hc.created else Some(Latest(hc.conditions))
  }

  function Latest(cs: seq<Condition>): (t: int)
    requires cs != []
    ensures IsLatest(cs, t)
  {
    if |cs| == 1 then cs[0].at
    else
      var t := Latest(cs[..|cs|-1]);
      assert cs == cs[..|cs|-1] + [cs[|cs|-1]];
      if cs[|cs|-1].at > t then cs[|cs|-1].at else t
  }

  method LatestTransition(cs: seq<Condition>) returns (latest: int)
    requires cs != []
    ensures IsLatest(cs, latest) && latest == Latest(cs)
  {
    latest := cs[0].at;
    for i := 1 to |cs|
      invariant latest == Latest(cs[..i])
    {
      assert cs[..i+1][..i] == cs[..i];
      if cs[i].at > latest {
        latest := cs[i].at;
      }
    }
    assert cs[..|cs|] == cs;
  }

  function ToCluster(hc: HostedCluster, m: Matrix): Cluster {
    var s := MapConditions(hc.conditions, hc.deleting);
    Cluster(hc.id, hc.name, s, StatusMessage(hc.conditions, s),
            ReleaseImageToK8sVersion(hc.image, m), hc.created, UpdateTime(hc),
            if s in {READY, UNAVAILABLE} then hc.access else NO_ACCESS)
  }

  method HostedClusterToCluster(hc: HostedCluster, m: Matrix) returns (cl: Cluster)
    ensures cl == ToCluster(hc, m)
  {
    var s := MapConditions(hc.conditions, hc.deleting);
    var message := None;
    match s {
      case FAILED => message := ConditionMessage(hc.conditions, "Degraded");
      case UNAVAILABLE => message := ConditionMessage(hc.conditions, "Available");
      case _ =>
    }
    cl := Cluster(hc.id, hc.name, s, message, ReleaseImageToK8sVersion(hc.image, m), None, None, NO_ACCESS);
    if hc.created.Some? {
      cl := cl.(createTime := hc.created);
    }
    if |hc.conditions| > 0 {
      var latest := LatestTransition(hc.conditions);
      cl := cl.(updateTime := Some(latest));
    } else if cl.createTime.Some? {
      cl := cl.(updateTime := cl.createTime);
    }
    if s == READY || s == UNAVAILABLE {
      cl := cl.(access := hc.access);
    }
  }

  // ---- what the API shows ------------------------------------------------------------------

  /** Condition i is the first of the type that has a text. */
  ghost predicate FirstSpeaking(cs: seq<Condition>, t: string, i: int) {
    && 0 <= i < |cs| && cs[i].ctype == t && cs[i].message != ""
    && forall j :: 0 <= j < i ==> cs[j].ctype != t || cs[j].message == ""
  }

  ghost predicate ShowsText(cs: seq<Condition>, t: string, text: Option<string>) {
    || (exists i :: FirstSpeaking(cs, t, i) && text == Some(cs[i].message))
    || (text == None && forall c :: c in cs && c.ctype == t ==> c.message == "")
  }

  lemma {:induction false} FirstSpeakingFound(cs: seq<Condition>, t: string)
    requires ConditionMessage(cs, t).Some?
    ensures exists i :: FirstSpeaking(cs, t, i) && cs[i].message == ConditionMessage(cs, t).value
  {
    if cs[0].ctype == t && cs[0].message != "" {
      assert FirstSpeaking(cs, t, 0);
    } else {
      var rest := cs[1..];
      FirstSpeakingFound(rest, t);
      var i :| FirstSpeaking(rest, t, i) && rest[i].message == ConditionMessage(rest, t).value;
      assert forall j :: 1 <= j < i + 1 ==> cs[j] == rest[j-1];
      assert FirstSpeaking(cs, t, i + 1);
    }
  }

  lemma ConditionMessageShows(cs: seq<Condition>, t: string)
    ensures ShowsText(cs, t, ConditionMessage(cs, t))
  {
    if ConditionMessage(cs, t).Some? {
      FirstSpeakingFound(cs, t);
    }
  }

  /** Every field of the API's view of any object, read off the object. */
  lemma ClusterShows(hc: HostedCluster, m: Matrix)
    ensures var cl := ToCluster(hc, m);
      && cl.id == hc.id && cl.name == hc.name && cl.createTime == hc.created
      && (forall s :: cl.status == s <==>
            && Applies(s, hc.conditions, hc.deleting)
            && forall t :: Line(t) < Line(s) ==> !Applies(t, hc.conditions, hc.deleting))
      && (cl.status == FAILED ==> ShowsText(hc.conditions, "Degraded", cl.message))
      && (cl.status == UNAVAILABLE ==> ShowsText(hc.conditions, "Available", cl.message))
      && (cl.status !in {FAILED, UNAVAILABLE} ==> cl.message == None)
      && (hc.conditions != [] ==> cl.updateTime.Some? && IsLatest(hc.conditions, cl.updateTime.value))
      && (hc.conditions == [] ==> cl.updateTime == hc.created)
      && (cl.status in {READY, UNAVAILABLE} ==> cl.access == hc.access)
      && (cl.status !in {READY, UNAVAILABLE} ==> cl.access == NO_ACCESS)
  {
    forall s ensures MapConditions(hc.conditions, hc.deleting) == s <==>
      Applies(s, hc.conditions, hc.deleting) && forall t :: Line(t) < Line(s) ==> !Applies(t, hc.conditions, hc.deleting)
    {
      MapperFollowsPrecedence(hc.conditions, hc.deleting, s);
    }
    ConditionMessageShows(hc.conditions, "Degraded");
    ConditionMessageShows(hc.conditions, "Available");
  }

  /** And the version: the one its tag stands for, if the matrix has it, or none. */
  lemma ClusterShowsVersion(hc: HostedCluster, m: Matrix, k8s: string)
    requires k8s != ""
    ensures ToCluster(hc, m).version == k8s <==> exists ocp :: ocp in m && m[ocp] == k8s && Tagged(hc.image, ocp)
  {
    ReportedIff(hc.image, m, k8s);
  }

  // ---- the same object, seen by the API and by the monitor -------------------------------

  /** The object as the monitor's informer delivers it. */
  function Watched(hc: HostedCluster): Resource {
    Resource(hc.id, Some(RawList(hc.conditions)), hc.deleting)
  }

  function RawList(cs: seq<Condition>): seq<RawCondition> {
    if cs == [] then []
    else
      var c := cs[|cs|-1];
      RawList(cs[..|cs|-1]) + [Fields(Some(c.ctype), Some(c.status), Some(c.message))]
  }

  /** The monitor does not read transition times. */
  function Untimed(cs: seq<Condition>): (r: seq<Condition>)
    ensures |r| == |cs|
    ensures forall i :: 0 <= i < |cs| ==> r[i] == cs[i].(at := 0)
  {
    seq(|cs|, i requires 0 <= i < |cs| => cs[i].(at := 0))
  }

  lemma {:induction false} ParsedIsUntimed(cs: seq<Condition>)
    ensures ParseAll(RawList(cs)) == Untimed(cs)
  {
    if cs != [] {
      var init := cs[..|cs|-1];
      ParsedIsUntimed(init);
      assert RawList(cs)[..|RawList(cs)|-1] == RawList(init);
      assert Untimed(cs) == Untimed(init) + [cs[|cs|-1].(at := 0)];
    }
  }

  lemma {:induction false} FirstUntimed(cs: seq<Condition>, t: string)
    ensures First(Untimed(cs), t) ==
              if First(cs, t).None? then None else Some(First(cs, t).value.(at := 0))
  {
    if cs != [] {
      FirstUntimed(cs[1..], t);
      assert Untimed(cs)[1..] == Untimed(cs[1..]);
    }
  }

  lemma LookupsUntimed(cs: seq<Condition>, t: string)
    ensures IsTrue(Untimed(cs), t) == IsTrue(cs, t)
    ensures IsFalse(Untimed(cs), t) == IsFalse(cs, t)
    ensures MessageOf(Untimed(cs), t) == MessageOf(cs, t)
  {
    FirstUntimed(cs, t);
  }

  /** Times aside, the two read one list: same status, and the same first-match text. */
  lemma MonitorReads(cs: seq<Condition>, deleting: bool, s: ClusterStatus)
    ensures MapConditions(Untimed(cs), deleting) == MapConditions(cs, deleting)
    ensures HostedClusterMessage(Untimed(cs), s) == HostedClusterMessage(cs, s)
  {
    LookupsUntimed(cs, "Degraded");
    LookupsUntimed(cs, "Available");
    LookupsUntimed(cs, "Progressing");
  }

  /** The first condition of the type has a text, or none of them has. */
  ghost predicate FirstSpeaks(cs: seq<Condition>, t: string) {
    MessageOf(cs, t) != "" || forall c :: c in cs && c.ctype == t ==> c.message == ""
  }

  /**
   * The two texts agree (nil read as empty) exactly then: the API searches on for a condition
   * with a text, the monitor stops at the first of the type.
   */
  lemma {:induction false} TextsAgreeIff(cs: seq<Condition>, t: string)
    ensures ConditionMessage(cs, t).GetOr("") == MessageOf(cs, t) <==> FirstSpeaks(cs, t)
  {
    if MessageOf(cs, t) != "" {
      FirstTextFound(cs, t);
    }
  }

  lemma {:induction false} FirstTextFound(cs: seq<Condition>, t: string)
    requires MessageOf(cs, t) != ""
    ensures ConditionMessage(cs, t) == Some(MessageOf(cs, t))
  {
    if cs[0].ctype != t {
      FirstTextFound(cs[1..], t);
    }
  }

  /**
   * For any object, API and monitor report the same status; and the same text unless the status
   * takes its text from a type whose first condition is silent while a later one is not.
   */
  lemma ApiAgreesWithMonitorIff(hc: HostedCluster, m: Matrix)
    ensures EventOf(Watched(hc), ResourceType.HostedCluster).HcSeen?
    ensures var o := EventOf(Watched(hc), ResourceType.HostedCluster).hc;
            var cl := ToCluster(hc, m);
            && cl.status == o.Status()
            && (cl.message.GetOr("") == o.Message() <==>
                  && (cl.status == FAILED ==> FirstSpeaks(hc.conditions, "Degraded"))
                  && (cl.status == UNAVAILABLE ==> FirstSpeaks(hc.conditions, "Available")))
  {
    var cs := hc.conditions;
    ParsedIsUntimed(cs);
    MonitorReads(cs, hc.deleting, MapConditions(cs, hc.deleting));
    TextsAgreeIff(cs, "Degraded");
    TextsAgreeIff(cs, "Available");
  }

  /** With one condition per type they always agree. */
  lemma ApiAgreesWithMonitor(hc: HostedCluster, m: Matrix)
    requires UniqueTypes(hc.conditions)
    ensures EventOf(Watched(hc), ResourceType.HostedCluster).HcSeen?
    ensures var o := EventOf(Watched(hc), ResourceType.HostedCluster).hc;
            && ToCluster(hc, m).status == o.Status()
            && ToCluster(hc, m).message.GetOr("") == o.Message()
  {
    ApiAgreesWithMonitorIff(hc, m);
    UniqueTypesSpeak(hc.conditions, "Degraded");
    UniqueTypesSpeak(hc.conditions, "Available");
  }

  lemma UniqueTypesSpeak(cs: seq<Condition>, t: string)
    requires UniqueTypes(cs)
    ensures FirstSpeaks(cs, t)
  {
    forall c | c in cs && c.ctype == t ensures First(cs, t) == Some(c) {
      FirstIsTheMatch(cs, c);
    }
  }

  /** Two Degraded conditions, the second alone with a text: the monitor reports none. */
  lemma TextsCanDiffer(m: Matrix, text: string) returns (hc: HostedCluster)
    requires text != ""
    ensures ToCluster(hc, m).status == FAILED && ToCluster(hc, m).message == Some(text)
    ensures EventOf(Watched(hc), ResourceType.HostedCluster).HcSeen?
    ensures EventOf(Watched(hc), ResourceType.HostedCluster).hc.Message() == ""
  {
    var cs := [Condition("Degraded", "True", "", 0), Condition("Degraded", "True", text, 0)];
    hc := HostedCluster.HostedCluster("", "", "", cs, false, None, NO_ACCESS);
    assert First(cs, "Degraded") == Some(cs[0]);
    assert cs[1..][0] == cs[1];
    assert ConditionMessage(cs[1..], "Degraded") == Some(text);
    ParsedIsUntimed(cs);
    MonitorReads(cs, false, FAILED);
  }
}
