// Mapping of HyperShift conditions to cluster statuses, and the worst-of composite.
module Status {
  import opened Ordering
  import opened Wrappers

  datatype ClusterStatus =
    | READY | PENDING | PROVISIONING | UNAVAILABLE | FAILED | DELETING | DELETED

  /** A condition as both the API and the monitor read it; `at` is its last transition time. */
  datatype Condition = Condition(ctype: string, status: string, message: string, at: int)

  // ---- mapper.go ------------------------------------------------------------

  /** First condition of the given type: every search in the mappers stops there. */
  function First(cs: seq<Condition>, t: string): (r: Option<Condition>)
    ensures r.Some? ==> r.value in cs && r.value.ctype == t
    ensures r.None? <==> forall c :: c in cs ==> c.ctype != t
  {
    if cs == [] then None
    else if cs[0].ctype == t then Some(cs[0])
    else First(cs[1..], t)
  }

  predicate IsTrue(cs: seq<Condition>, t: string) {
    var c := First(cs, t);
    c.Some? && c.value.status == "True"
  }

  predicate IsFalse(cs: seq<Condition>, t: string) {
    var c := First(cs, t);
    c.Some? && c.value.status == "False"
  }

  function MapConditions(cs: seq<Condition>, deleting: bool): ClusterStatus {
    if deleting then DELETING
    else if IsTrue(cs, "Degraded") then FAILED
    else if IsTrue(cs, "Available") then READY
    else if IsTrue(cs, "Progressing") then PROVISIONING
    else if IsFalse(cs, "Available") && IsFalse(cs, "Progressing") then UNAVAILABLE
    else PENDING
  }

  // ---- nodepool_mapper.go ---------------------------------------------------

  /** None means: no conditions, excluded from the composite. */
  function MapNodePool(cs: seq<Condition>): Option<ClusterStatus> {
    if |cs| == 0 then None
    else if IsTrue(cs, "UpdatingVersion") || IsTrue(cs, "UpdatingConfig") then Some(PROVISIONING)
    else if IsFalse(cs, "Ready") then Some(UNAVAILABLE)
    else if IsTrue(cs, "Ready") then Some(READY)
    else Some(PENDING)
  }

  // ---- composite.go ---------------------------------------------------------

  function Priority(s: ClusterStatus): nat {
    match s
    case READY => 1
    case PENDING => 2
    case PROVISIONING => 3
    case UNAVAILABLE => 4
    case FAILED => 5
    case DELETING => 6
    case DELETED => 7
  }

  function Composite(hc: ClusterStatus, np: Option<ClusterStatus>): ClusterStatus {
    if np.None? then hc
    else if Priority(np.value) > Priority(hc) then np.value
    else hc
  }

  /** The composite is the least upper bound of what was seen, whatever chain computed it. */
  lemma CompositeIsWorst(hc: ClusterStatus, np: Option<ClusterStatus>, other: ClusterStatus)
    ensures Composite(hc, np) == other
        <==> (other == hc || np == Some(other))
             && Priority(hc) <= Priority(other)
             && (np.Some? ==> Priority(np.value) <= Priority(other))
  {
    PriorityIsInjective(hc, other);
    if np.Some? {
      PriorityIsInjective(np.value, other);
      PriorityIsInjective(np.value, hc);
    }
  }

  /** Either resource has this status. */
  ghost predicate Seen(hc: ClusterStatus, np: Option<ClusterStatus>, s: ClusterStatus) {
    hc == s || np == Some(s)
  }

  /** The composite, status by status, from the worst down: the first one that is seen. */
  lemma CompositeTable(hc: ClusterStatus, np: Option<ClusterStatus>)
    ensures Composite(hc, np) == DELETED <==> Seen(hc, np, DELETED)
    ensures Composite(hc, np) == DELETING <==> Seen(hc, np, DELETING) && !Seen(hc, np, DELETED)
    ensures Composite(hc, np) == FAILED <==>
              Seen(hc, np, FAILED) && !Seen(hc, np, DELETING) && !Seen(hc, np, DELETED)
    ensures Composite(hc, np) == UNAVAILABLE <==>
              && Seen(hc, np, UNAVAILABLE)
              && hc !in {FAILED, DELETING, DELETED} && (np.Some? ==> np.value !in {FAILED, DELETING, DELETED})
    ensures Composite(hc, np) == PROVISIONING <==>
              && Seen(hc, np, PROVISIONING)
              && hc in {READY, PENDING, PROVISIONING} && (np.Some? ==> np.value in {READY, PENDING, PROVISIONING})
    ensures Composite(hc, np) == PENDING <==>
              Seen(hc, np, PENDING) && hc in {READY, PENDING} && (np.Some? ==> np.value in {READY, PENDING})
    ensures Composite(hc, np) == READY <==> hc == READY && (np.Some? ==> np.value == READY)
  {
  }

  lemma PriorityIsInjective(a: ClusterStatus, b: ClusterStatus)
    ensures Priority(a) == Priority(b) ==> a == b
  {
  }

  // ---- messages (reconcile.go) ----------------------------------------------

  function MessageOf(cs: seq<Condition>, t: string): string {
    var c := First(cs, t);
    if c.Some? then c.value.message else ""
  }

  function HostedClusterMessage(cs: seq<Condition>, s: ClusterStatus): string {
    match s
    case FAILED => MessageOf(cs, "Degraded")
    case UNAVAILABLE => MessageOf(cs, "Available")
    case _ => ""
  }

  /** First condition of either updating type, whatever its status. */
  function FirstUpdating(cs: seq<Condition>): (r: Option<Condition>)
    ensures r.Some? ==> r.value in cs && (r.value.ctype == "UpdatingVersion" || r.value.ctype == "UpdatingConfig")
    ensures r.None? <==> First(cs, "UpdatingVersion").None? && First(cs, "UpdatingConfig").None?
  {
    if cs == [] then None
    else if cs[0].ctype == "UpdatingVersion" || cs[0].ctype == "UpdatingConfig" then Some(cs[0])
    else FirstUpdating(cs[1..])
  }

  const NODE_POOL_PREFIX := "NodePool: "

  function NodePoolMessage(cs: seq<Condition>, s: ClusterStatus): string {
    match s
    case UNAVAILABLE =>
      var c := First(cs, "Ready");
      if c.Some? then NODE_POOL_PREFIX + c.value.message else ""
    case PROVISIONING =>
      var c := FirstUpdating(cs);
      if c.Some? then NODE_POOL_PREFIX + c.value.message else ""
    case _ => ""
  }

  // ---- the documented precedence ----------------------------------------------

  /** The first condition of type t, wherever it stands, has status st. */
  ghost predicate Has(cs: seq<Condition>, t: string, st: string) {
    exists i :: FirstAt(cs, t, i) && cs[i].status == st
  }

  ghost predicate FirstAt(cs: seq<Condition>, t: string, i: int) {
    0 <= i < |cs| && cs[i].ctype == t && forall j :: 0 <= j < i ==> cs[j].ctype != t
  }

  lemma {:induction false} HasIff(cs: seq<Condition>, t: string, st: string)
    ensures Has(cs, t, st) <==> First(cs, t).Some? && First(cs, t).value.status == st
  {
    if cs != [] {
      HasIff(cs[1..], t, st);
      if cs[0].ctype == t {
        assert FirstAt(cs, t, 0);
      } else {
        forall i ensures FirstAt(cs[1..], t, i) <==> FirstAt(cs, t, i + 1) {
          assert forall j :: 1 <= j < |cs| ==> cs[j] == cs[1..][j-1];
        }
        assert forall i :: FirstAt(cs, t, i) ==> FirstAt(cs[1..], t, i - 1);
      }
    }
  }

  /** When a line of the documented table applies, taken by itself. */
  ghost predicate Applies(s: ClusterStatus, cs: seq<Condition>, deleting: bool) {
    match s
    case DELETING => deleting
    case FAILED => Has(cs, "Degraded", "True")
    case READY => Has(cs, "Available", "True")
    case PROVISIONING => Has(cs, "Progressing", "True")
    case UNAVAILABLE => Has(cs, "Available", "False") && Has(cs, "Progressing", "False")
    case PENDING => true
    case DELETED => false
  }

  /** The line of the documented table that stands for a status; lower lines win. */
  function Line(s: ClusterStatus): nat {
    match s
    case DELETING => 1
    case FAILED => 2
    case READY => 3
    case PROVISIONING => 4
    case UNAVAILABLE => 5
    case PENDING => 6
    case DELETED => 7
  }

  /** The mapper picks the first line that applies, and only that one. */
  lemma MapperFollowsPrecedence(cs: seq<Condition>, deleting: bool, s: ClusterStatus)
    ensures MapConditions(cs, deleting) == s
       <==> Applies(s, cs, deleting) && forall t :: Line(t) < Line(s) ==> !Applies(t, cs, deleting)
  {
    HasIff(cs, "Degraded", "True");
    HasIff(cs, "Available", "True");
    HasIff(cs, "Available", "False");
    HasIff(cs, "Progressing", "True");
    HasIff(cs, "Progressing", "False");
    var m := MapConditions(cs, deleting);
    assert Applies(m, cs, deleting);
    assert forall t :: Line(t) < Line(m) ==> !Applies(t, cs, deleting);
    assert Line(m) < Line(s) || Line(s) < Line(m) || m == s;
  }

  /** The node pool's table: updating, then not ready, then ready; never worse than UNAVAILABLE. */
  lemma NodePoolFollowsPrecedence(cs: seq<Condition>)
    ensures MapNodePool(cs).None? <==> cs == []
    ensures MapNodePool(cs) == Some(PROVISIONING)
       <==> Has(cs, "UpdatingVersion", "True") || Has(cs, "UpdatingConfig", "True")
    ensures MapNodePool(cs) == Some(UNAVAILABLE) <==>
              Has(cs, "Ready", "False") && !Has(cs, "UpdatingVersion", "True") && !Has(cs, "UpdatingConfig", "True")
    ensures MapNodePool(cs) == Some(READY) <==>
              Has(cs, "Ready", "True") && !Has(cs, "UpdatingVersion", "True") && !Has(cs, "UpdatingConfig", "True")
    ensures MapNodePool(cs).Some? ==> Priority(MapNodePool(cs).value) <= Priority(UNAVAILABLE)
  {
    HasIff(cs, "UpdatingVersion", "True");
    HasIff(cs, "UpdatingConfig", "True");
    HasIff(cs, "Ready", "False");
    HasIff(cs, "Ready", "True");
  }

  // ---- where a text comes from --------------------------------------------------

  /** The text of the first condition of type t; empty without one. */
  ghost predicate FirstText(cs: seq<Condition>, t: string, text: string) {
    || (exists i :: FirstAt(cs, t, i) && text == cs[i].message)
    || (text == "" && forall c :: c in cs ==> c.ctype != t)
  }

  lemma {:induction false} FirstTextIff(cs: seq<Condition>, t: string, text: string)
    ensures FirstText(cs, t, text) <==> MessageOf(cs, t) == text
  {
    if First(cs, t).Some? {
      FirstIsFirst(cs, t);
      var i :| FirstAt(cs, t, i) && cs[i] == First(cs, t).value;
      assert forall j :: FirstAt(cs, t, j) ==> j == i;
      assert cs[i] in cs;
    }
  }

  lemma {:induction false} FirstIsFirst(cs: seq<Condition>, t: string)
    requires First(cs, t).Some?
    ensures exists i :: FirstAt(cs, t, i) && cs[i] == First(cs, t).value
  {
    if cs[0].ctype == t {
      assert FirstAt(cs, t, 0);
    } else {
      FirstIsFirst(cs[1..], t);
      var i :| FirstAt(cs[1..], t, i) && cs[1..][i] == First(cs[1..], t).value;
      assert forall j :: 1 <= j < i + 1 ==> cs[j] == cs[1..][j-1];
      assert FirstAt(cs, t, i + 1);
    }
  }

  /** The control plane speaks when FAILED or UNAVAILABLE, each time through one type. */
  ghost predicate HcText(cs: seq<Condition>, s: ClusterStatus, text: string) {
    match s
    case FAILED => FirstText(cs, "Degraded", text)
    case UNAVAILABLE => FirstText(cs, "Available", text)
    case _ => text == ""
  }

  ghost predicate UpdatingAt(cs: seq<Condition>, i: int) {
    && 0 <= i < |cs| && (cs[i].ctype == "UpdatingVersion" || cs[i].ctype == "UpdatingConfig")
    && forall j :: 0 <= j < i ==> cs[j].ctype != "UpdatingVersion" && cs[j].ctype != "UpdatingConfig"
  }

  /** The node pool speaks when it is UNAVAILABLE or PROVISIONING, under its own name. */
  ghost predicate NpText(cs: seq<Condition>, s: ClusterStatus, text: string) {
    match s
    case UNAVAILABLE => exists i :: FirstAt(cs, "Ready", i) && text == "NodePool: " + cs[i].message
    case PROVISIONING => exists i :: UpdatingAt(cs, i) && text == "NodePool: " + cs[i].message
    case _ => text == ""
  }

  lemma HcTextHolds(cs: seq<Condition>, s: ClusterStatus)
    ensures HcText(cs, s, HostedClusterMessage(cs, s))
  {
    FirstTextIff(cs, "Degraded", MessageOf(cs, "Degraded"));
    FirstTextIff(cs, "Available", MessageOf(cs, "Available"));
  }

  lemma {:induction false} FirstUpdatingIsFirst(cs: seq<Condition>)
    requires FirstUpdating(cs).Some?
    ensures exists i :: UpdatingAt(cs, i) && cs[i] == FirstUpdating(cs).value
  {
    if cs[0].ctype == "UpdatingVersion" || cs[0].ctype == "UpdatingConfig" {
      assert UpdatingAt(cs, 0);
    } else {
      FirstUpdatingIsFirst(cs[1..]);
      var i :| UpdatingAt(cs[1..], i) && cs[1..][i] == FirstUpdating(cs[1..]).value;
      assert forall j :: 1 <= j < i + 1 ==> cs[j] == cs[1..][j-1];
      assert UpdatingAt(cs, i + 1);
    }
  }

  lemma NpTextHolds(cs: seq<Condition>)
    requires MapNodePool(cs).Some?
    ensures NpText(cs, MapNodePool(cs).value, NodePoolMessage(cs, MapNodePool(cs).value))
  {
    match MapNodePool(cs).value
    case UNAVAILABLE =>
      FirstIsFirst(cs, "Ready");
    case PROVISIONING =>
      FirstUpdatingIsFirst(cs);
    case _ =>
  }

  // ---- order of the condition list does not matter ---------------------------

  ghost predicate UniqueTypes(cs: seq<Condition>) {
    forall i, j :: 0 <= i < j < |cs| ==> cs[i].ctype != cs[j].ctype
  }

  /** With unique types the first match is the only match. */
  lemma {:induction false} FirstIsTheMatch(cs: seq<Condition>, c: Condition)
    requires UniqueTypes(cs) && c in cs
    ensures First(cs, c.ctype) == Some(c)
  {
    if cs[0] != c {
      assert c in cs[1..];
      assert forall i, j :: 0 <= i < j < |cs[1..]| ==> cs[1..][i] == cs[i+1] && cs[1..][j] == cs[j+1];
      FirstIsTheMatch(cs[1..], c);
      assert exists k :: 1 <= k < |cs| && cs[k] == c;
    }
  }

  lemma PermutedKeepsUniqueTypes(a: seq<Condition>, b: seq<Condition>)
    requires UniqueTypes(a) && Permuted(a, b)
    ensures UniqueTypes(b)
  {
    PermutedKeepsDistinct(a, b, (c: Condition) => c.ctype);
  }

  lemma FirstIgnoresOrder(a: seq<Condition>, b: seq<Condition>, t: string)
    requires UniqueTypes(a) && Permuted(a, b)
    ensures First(a, t) == First(b, t)
  {
    PermutedKeepsUniqueTypes(a, b);
    SameElements(a, b);
    if First(a, t).Some? {
      FirstIsTheMatch(b, First(a, t).value);
    }
  }

  lemma LookupsIgnoreOrder(a: seq<Condition>, b: seq<Condition>)
    requires UniqueTypes(a) && Permuted(a, b)
    ensures forall t :: First(a, t) == First(b, t)
  {
    forall t ensures First(a, t) == First(b, t) {
      FirstIgnoresOrder(a, b, t);
    }
  }

  /** The control plane's status and message depend on the set of conditions only. */
  lemma HostedClusterMapperIgnoresOrder(a: seq<Condition>, b: seq<Condition>, deleting: bool, s: ClusterStatus)
    requires UniqueTypes(a) && Permuted(a, b)
    ensures MapConditions(a, deleting) == MapConditions(b, deleting)
    ensures HostedClusterMessage(a, s) == HostedClusterMessage(b, s)
  {
    LookupsIgnoreOrder(a, b);
  }

  /** So do a node pool's status and its UNAVAILABLE message. */
  lemma NodePoolMapperIgnoresOrder(a: seq<Condition>, b: seq<Condition>)
    requires UniqueTypes(a) && Permuted(a, b)
    ensures MapNodePool(a) == MapNodePool(b)
    ensures NodePoolMessage(a, UNAVAILABLE) == NodePoolMessage(b, UNAVAILABLE)
  {
    assert |multiset(a)| == |multiset(b)|;
    LookupsIgnoreOrder(a, b);
  }

  /**
   * The PROVISIONING message of a node pool is the exception. It ignores the order of the
   * list exactly when at most one of the two updating conditions is present or both carry
   * the same text; otherwise some reordering of the same conditions changes it.
   */
  lemma UpdatingMessageIgnoresOrderIff(a: seq<Condition>)
    requires UniqueTypes(a)
    ensures (forall b :: Permuted(a, b) ==> NodePoolMessage(a, PROVISIONING) == NodePoolMessage(b, PROVISIONING))
       <==> (First(a, "UpdatingVersion").None? || First(a, "UpdatingConfig").None?
             || First(a, "UpdatingVersion").value.message == First(a, "UpdatingConfig").value.message)
  {
    var v, c := First(a, "UpdatingVersion"), First(a, "UpdatingConfig");
    forall b | Permuted(a, b)
      ensures First(b, "UpdatingVersion") == v && First(b, "UpdatingConfig") == c
      ensures FirstUpdating(b) == v || FirstUpdating(b) == c
    {
      FirstIgnoresOrder(a, b, "UpdatingVersion");
      FirstIgnoresOrder(a, b, "UpdatingConfig");
      PermutedKeepsUniqueTypes(a, b);
      if FirstUpdating(b).Some? {
        FirstIsTheMatch(b, FirstUpdating(b).value);
      }
    }
    assert Permuted(a, a);
    if v.Some? && c.Some? && v.value.message != c.value.message {
      var b1 := BringToFront(a, v.value);
      var b2 := BringToFront(a, c.value);
      assert FirstUpdating(b1) == v && FirstUpdating(b2) == c;
      PrefixIsInjective(v.value.message, c.value.message);
      assert NodePoolMessage(b1, PROVISIONING) == NODE_POOL_PREFIX + v.value.message;
      assert NodePoolMessage(b2, PROVISIONING) == NODE_POOL_PREFIX + c.value.message;
    }
  }

  lemma PrefixIsInjective(x: string, y: string)
    requires x != y
    ensures NODE_POOL_PREFIX + x != NODE_POOL_PREFIX + y
  {
    assert x == (NODE_POOL_PREFIX + x)[|NODE_POOL_PREFIX|..];
    assert y == (NODE_POOL_PREFIX + y)[|NODE_POOL_PREFIX|..];
  }

  lemma BringToFront(a: seq<Condition>, c: Condition) returns (b: seq<Condition>)
    requires c in a
    ensures Permuted(a, b) && b != [] && b[0] == c
  {
    var p :| 0 <= p < |a| && a[p] == c;
    b := [c] + a[..p] + a[p+1..];
    assert a == a[..p] + [c] + a[p+1..];
  }
}
