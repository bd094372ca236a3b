// Cluster creation and deletion over a store whose every call may fail.
module Lifecycle {
  import opened Convert
  import opened Status
  import opened Versions
  import opened Wrappers

  /** One namespace of the hub: HostedClusters by name, and the instance ID of each NodePool. */
  datatype Store = Store(hcs: map<string, HostedCluster>, nps: map<string, string>)

  const EMPTY := Store(map[], map[])

  // ---- consistency --------------------------------------------------------------------

  ghost predicate Named(s: Store) {
    forall n :: n in s.hcs ==> s.hcs[n].name == n
  }

  ghost predicate OnePerId(s: Store) {
    forall a, b :: a in s.hcs && b in s.hcs && s.hcs[a].id == s.hcs[b].id ==> a == b
  }

  /** Every NodePool has a HostedCluster of the same name and ID. */
  ghost predicate NoOrphans(s: Store) {
    forall n :: n in s.nps ==> n in s.hcs && s.hcs[n].id == s.nps[n]
  }

  ghost predicate Consistent(s: Store) {
    Named(s) && OnePerId(s) && NoOrphans(s)
  }

  ghost predicate AllConsistent(trace: seq<Store>) {
    forall i :: 0 <= i < |trace| ==> Consistent(trace[i])
  }

  predicate Exists(s: Store, id: string) {
    exists n :: n in s.hcs && s.hcs[n].id == id
  }

  /** The store without anything of this instance. */
  function Without(s: Store, id: string): Store {
    Store(map n | n in s.hcs && s.hcs[n].id != id :: s.hcs[n],
          map n | n in s.nps && s.nps[n] != id :: s.nps[n])
  }

  // ---- the hub ------------------------------------------------------------------------------

  datatype ApiError = Taken | Missing | Failed

  /** The API server: a failing call reports an error and changes nothing. */
  class Hub {
    var hcs: map<string, HostedCluster>
    var nps: map<string, string>
    ghost var trace: seq<Store>  // the store after every effective write

    ghost function Now(): Store
      reads this
    {
      Store(hcs, nps)
    }

    method CreateHC(hc: HostedCluster, fails: bool) returns (err: Option<ApiError>)
      modifies this
      ensures err == if fails then Some(Failed) else if hc.name in old(hcs) then Some(Taken) else None
      ensures Now() == if err.None? then old(Now()).(hcs := old(hcs)[hc.name := hc]) else old(Now())
      ensures trace == old(trace) + (if err.None? then [Now()] else [])
    {
      if fails {
        return Some(Failed);
      }
      if hc.name in hcs {
        return Some(Taken);
      }
      hcs := hcs[hc.name := hc];
      trace := trace + [Now()];
      err := None;
    }

    method CreateNP(name: string, id: string, fails: bool) returns (err: Option<ApiError>)
      modifies this
      ensures err == if fails then Some(Failed) else if name in old(nps) then Some(Taken) else None
      ensures Now() == if err.None? then old(Now()).(nps := old(nps)[name := id]) else old(Now())
      ensures trace == old(trace) + (if err.None? then [Now()] else [])
    {
      if fails {
        return Some(Failed);
      }
      if name in nps {
        return Some(Taken);
      }
      nps := nps[name := id];
      trace := trace + [Now()];
      err := None;
    }

    method DeleteHC(name: string, fails: bool) returns (err: Option<ApiError>)
      modifies this
      ensures err == if fails then Some(Failed) else if name !in old(hcs) then Some(Missing) else None
      ensures Now() == if err.None? then old(Now()).(hcs := old(hcs) - {name}) else old(Now())
      ensures trace == old(trace) + (if err.None? then [Now()] else [])
    {
      if fails {
        return Some(Failed);
      }
      if name !in hcs {
        return Some(Missing);
      }
      hcs := hcs - {name};
      trace := trace + [Now()];
      err := None;
    }

    method DeleteNP(name: string, fails: bool) returns (err: Option<ApiError>)
      modifies this
      ensures err == if fails then Some(Failed) else if name !in old(nps) then Some(Missing) else None
      ensures Now() == if err.None? then old(Now()).(nps := old(nps) - {name}) else old(Now())
      ensures trace == old(trace) + (if err.None? then [Now()] else [])
    {
      if fails {
        return Some(Failed);
      }
      if name !in nps {
        return Some(Missing);
      }
      nps := nps - {name};
      trace := trace + [Now()];
      err := None;
    }

    // ---- CreateCluster ----------------------------------------------------------------------

    /** The HC, then its NodePool; the HC is taken back when the NodePool fails. */
    method CreateResources(hc: HostedCluster, env: CreateEnv) returns (err: Option<Error>)
      modifies this
      ensures
        var s := old(Now());
        var s1 := WithHC(s, hc);
        var s2 := s1.(nps := s.nps[hc.name := hc.id]);
        if env.hcFails || hc.name in s.hcs then
          err == Some(if env.hcFails then Internal else AlreadyExists) && Now() == s && trace == old(trace)
        else if !env.npFails && hc.name !in s.nps then
          err == None && Now() == s2 && trace == old(trace) + [s1, s2]
        else if env.rollbackFails then
          err == Some(RollbackFailed) && Now() == s1 && trace == old(trace) + [s1]
        else
          err == Some(Internal) && Now() == s && trace == old(trace) + [s1, s]
    {
      var e := CreateHC(hc, env.hcFails);
      if e.Some? {
        return Some(if e.value.Taken? then AlreadyExists else Internal);
      }
      e := CreateNP(hc.name, hc.id, env.npFails);
      if e.Some? {
        var rollback := DeleteHC(hc.name, env.rollbackFails);
        assert !env.rollbackFails ==> hcs == old(hcs);
        return Some(if rollback.Some? then RollbackFailed else Internal);
      }
      err := None;
    }

    method CreateCluster(cfg: Config, id: string, req: Request, env: CreateEnv)
      returns (r: Result<Cluster, Error>)
      modifies this
      ensures r == CreateResult(old(Now()), cfg, id, req, env)
      ensures Now() == AfterCreate(old(Now()), cfg, id, req, env)
      ensures trace == old(trace) + CreateTrace(old(Now()), cfg, id, req, env)
    {
      var baseDomain := req.baseDomain.GetOr(cfg.baseDomain);
      if baseDomain == "" {
        return Err(InvalidArgument);
      }
      var image := ResolveReleaseImage(req.image, cfg.matrix, env.order, env.images, req.version);
      if image.Err? {
        return Err(image.error);
      }
      if env.listFails {
        return Err(Internal);
      }
      if Exists(Store(hcs, nps), id) {
        return Err(AlreadyExists);
      }
      var hc := HostedCluster(req.name, id, image.value, [], false, Some(env.created), NO_ACCESS);
      var err := CreateResources(hc, env);
      if err.Some? {
        return Err(err.value);
      }
      r := Ok(Cluster(id, req.name, PENDING, None, req.version, Some(env.now), Some(env.now), NO_ACCESS));
    }

    // ---- DeleteCluster ------------------------------------------------------------------------

    /** `listed` is what the store returned for the ID, in its order. */
    method DeleteNodePools(listed: seq<string>, fails: set<string>) returns (err: Option<Error>)
      modifies this
      ensures err == if NpFailure(listed, fails) < |listed| then Some(Internal) else None
      ensures Now() == AfterNps(old(Now()), listed[..NpFailure(listed, fails)])
      ensures trace == old(trace) + NpTrace(old(Now()), listed[..NpFailure(listed, fails)])
    {
      for i := 0 to |listed|
        invariant i <= NpFailure(listed, fails)
        invariant Now() == AfterNps(old(Now()), listed[..i])
        invariant trace == old(trace) + NpTrace(old(Now()), listed[..i])
      {
        assert listed[..i+1][..i] == listed[..i];
        NpFailureFrom(listed, fails, i);
        var e := DeleteNP(listed[i], listed[i] in fails);
        if e.Some? && !e.value.Missing? {
          return Some(Internal);
        }
      }
      assert listed[..|listed|] == listed;
      err := None;
    }

    method DeleteCluster(id: string, env: DeleteEnv) returns (err: Option<Error>)
      modifies this
      ensures err == DeleteError(old(Now()), id, env)
      ensures Now() == AfterDelete(old(Now()), id, env)
      ensures trace == old(trace) + DeleteTrace(old(Now()), id, env)
    {
      if env.listFails {
        return Some(Internal);
      }
      if !Exists(Store(hcs, nps), id) {
        return Some(NotFound);
      }
      if env.npListFails {
        return Some(Internal);
      }
      NpsOnly(Now(), DeletedNps(env));
      var npErr := DeleteNodePools(env.listed, env.npFails);
      if npErr.Some? {
        return npErr;
      }
      assert env.listed[..|env.listed|] == env.listed;
      var e := DeleteHC(env.found, env.hcFails);
      err := if e.Some? then Some(Internal) else None;
    }
  }

  // ---- what they do to the store ----------------------------------------------------------------

  datatype Config = Config(baseDomain: string, matrix: Matrix)

  datatype Request = Request(name: string, version: string, baseDomain: Option<string>, image: Option<string>)

  /**
   * The answers of the store during one CreateCluster. `created` is the creation timestamp the
   * API server gives the HC, by its own clock; `now` is what the service's clock shows later,
   * when it answers.
   */
  datatype CreateEnv = CreateEnv(order: seq<string>, images: Option<seq<string>>,
                                 listFails: bool, hcFails: bool, npFails: bool, rollbackFails: bool,
                                 created: int, now: int)

  function Image(cfg: Config, req: Request, env: CreateEnv): Result<string, Error> {
    ResolveReleaseImage(req.image, cfg.matrix, env.order, env.images, req.version)
  }

  function NewHC(cfg: Config, id: string, req: Request, env: CreateEnv): HostedCluster
    requires Image(cfg, req, env).Ok?
  {
    HostedCluster(req.name, id, Image(cfg, req, env).value, [], false, Some(env.created), NO_ACCESS)
  }

  /** Why nothing is written at all, if so. */
  function Refusal(s: Store, cfg: Config, id: string, req: Request, env: CreateEnv): Option<Error> {
    if req.baseDomain.GetOr(cfg.baseDomain) == "" then Some(InvalidArgument)
    else if Image(cfg, req, env).Err? then Some(Image(cfg, req, env).error)
    else if env.listFails then Some(Internal)
    else if Exists(s, id) then Some(AlreadyExists)
    else if env.hcFails then Some(Internal)
    else if req.name in s.hcs then Some(AlreadyExists)
    else None
  }

  function CreateResult(s: Store, cfg: Config, id: string, req: Request, env: CreateEnv): Result<Cluster, Error> {
    if Refusal(s, cfg, id, req, env).Some? then Err(Refusal(s, cfg, id, req, env).value)
    else if !env.npFails && req.name !in s.nps then
      Ok(Cluster(id, req.name, PENDING, None, req.version, Some(env.now), Some(env.now), NO_ACCESS))
    else if env.rollbackFails then Err(RollbackFailed)
    else Err(Internal)
  }

  function WithHC(s: Store, hc: HostedCluster): Store {
    s.(hcs := s.hcs[hc.name := hc])
  }

  /** The states written, in order. */
  function CreateTrace(s: Store, cfg: Config, id: string, req: Request, env: CreateEnv): seq<Store> {
    if Refusal(s, cfg, id, req, env).Some? then []
    else
      var s1 := WithHC(s, NewHC(cfg, id, req, env));
      match CreateResult(s, cfg, id, req, env)
      case Ok(_) => [s1, s1.(nps := s.nps[req.name := id])]
      case Err(RollbackFailed) => [s1]
      case Err(_) => [s1, s]
  }

  function Final(s: Store, trace: seq<Store>): Store {
    if trace == [] then s else trace[|trace|-1]
  }

  function AfterCreate(s: Store, cfg: Config, id: string, req: Request, env: CreateEnv): Store {
    Final(s, CreateTrace(s, cfg, id, req, env))
  }

  /**
   * The answers of the store during one DeleteCluster: the HC found for the ID, the NodePools
   * listed for it, and the calls that fail.
   */
  datatype DeleteEnv = DeleteEnv(listFails: bool, npListFails: bool, found: string, listed: seq<string>,
                                 npFails: set<string>, hcFails: bool)

  /**
   * The lists are true: the HC found has the ID, every NodePool of the ID is listed, and
   * nothing listed belongs to another. A listed NodePool may be gone already.
   */
  ghost predicate TrueLists(s: Store, id: string, env: DeleteEnv) {
    && (Exists(s, id) ==> env.found in s.hcs && s.hcs[env.found].id == id)
    && (forall n :: n in s.nps && s.nps[n] == id ==> n in env.listed)
    && (forall n :: n in env.listed && n in s.nps ==> s.nps[n] == id)
  }

  predicate FaultFree(env: DeleteEnv) {
    !env.listFails && !env.npListFails && env.npFails == {} && !env.hcFails
  }

  /** Position of the first listed NodePool whose deletion fails. */
  function NpFailure(listed: seq<string>, fails: set<string>): (k: nat)
    ensures k <= |listed|
    ensures k < |listed| ==> listed[k] in fails
    ensures forall j :: 0 <= j < k ==> listed[j] !in fails
  {
    if listed == [] || listed[0] in fails then 0 else 1 + NpFailure(listed[1..], fails)
  }

  lemma NpFailureFrom(listed: seq<string>, fails: set<string>, i: nat)
    requires i < |listed| && i <= NpFailure(listed, fails)
    ensures i == NpFailure(listed, fails) <==> listed[i] in fails
  {
  }

  function NpTrace(s: Store, names: seq<string>): seq<Store> {
    if names == [] then []
    else
      var n := names[|names|-1];
      var before := NpTrace(s, names[..|names|-1]);
      var now := AfterNps(s, names[..|names|-1]);
      if n in now.nps then before + [now.(nps := now.nps - {n})] else before
  }

  function AfterNps(s: Store, names: seq<string>): Store {
    if names == [] then s
    else
      var now := AfterNps(s, names[..|names|-1]);
      now.(nps := now.nps - {names[|names|-1]})
  }

  /** The error that stops the deletion before the HC itself. */
  function EarlyError(s: Store, id: string, env: DeleteEnv): Option<Error> {
    if env.listFails then Some(Internal)
    else if !Exists(s, id) then Some(NotFound)
    else if env.npListFails then Some(Internal)
    else None
  }

  function DeleteError(s: Store, id: string, env: DeleteEnv): Option<Error> {
    if EarlyError(s, id, env).Some? then EarlyError(s, id, env)
    else if NpFailure(env.listed, env.npFails) < |env.listed| || env.hcFails || env.found !in s.hcs then Some(Internal)
    else None
  }

  function DeletedNps(env: DeleteEnv): seq<string> {
    env.listed[..NpFailure(env.listed, env.npFails)]
  }

  function AfterDelete(s: Store, id: string, env: DeleteEnv): Store {
    if EarlyError(s, id, env).Some? then s
    else
      var t := AfterNps(s, DeletedNps(env));
      if DeleteError(s, id, env).Some? then t else t.(hcs := s.hcs - {env.found})
  }

  function DeleteTrace(s: Store, id: string, env: DeleteEnv): seq<Store> {
    if EarlyError(s, id, env).Some? then []
    else
      NpTrace(s, DeletedNps(env))
      + (if DeleteError(s, id, env).Some? then [] else [AfterDelete(s, id, env)])
  }

  /** Deleting NodePools removes exactly the named ones. */
  lemma {:induction false} NpsOnly(s: Store, names: seq<string>)
    ensures AfterNps(s, names) == s.(nps := s.nps - (set n | n in names))
  {
    if names == [] {
      assert s.nps - (set n | n in names) == s.nps;
    } else {
      var init := names[..|names|-1];
      NpsOnly(s, init);
      assert names == init + [names[|names|-1]];
      assert s.nps - (set n | n in names) == s.nps - (set n | n in init) - {names[|names|-1]};
    }
  }

  // ---- every intermediate state is consistent -----------------------------------------------

  lemma FewerNpsStayConsistent(s: Store, t: Store)
    requires Consistent(s) && t.hcs == s.hcs
    requires forall n :: n in t.nps ==> n in s.nps && t.nps[n] == s.nps[n]
    ensures Consistent(t)
  {
  }

  lemma CreateKeepsConsistent(s: Store, cfg: Config, id: string, req: Request, env: CreateEnv)
    requires Consistent(s)
    ensures AllConsistent(CreateTrace(s, cfg, id, req, env)) && Consistent(AfterCreate(s, cfg, id, req, env))
  {
    if Refusal(s, cfg, id, req, env).None? {
      var s1 := WithHC(s, NewHC(cfg, id, req, env));
      assert Consistent(s1);
      assert Consistent(s1.(nps := s.nps[req.name := id]));
    }
  }

  lemma {:induction false} NpTraceConsistent(s: Store, names: seq<string>)
    requires Consistent(s)
    ensures AllConsistent(NpTrace(s, names)) && Consistent(AfterNps(s, names))
  {
    NpsOnly(s, names);
    FewerNpsStayConsistent(s, AfterNps(s, names));
    if names != [] {
      NpTraceConsistent(s, names[..|names|-1]);
    }
  }

  lemma OnlyItsHcGoes(s: Store, id: string, found: string)
    requires OnePerId(s) && found in s.hcs && s.hcs[found].id == id
    ensures s.hcs - {found} == Without(s, id).hcs
  {
  }

  lemma OnlyItsNpsGo(s: Store, id: string, listed: seq<string>)
    requires forall n :: n in s.nps ==> (s.nps[n] == id <==> n in listed)
    ensures s.nps - (set n | n in listed) == Without(s, id).nps
  {
  }

  /** A deletion that gets through leaves nothing of the instance and everything else. */
  lemma DeleteRemovesInstance(s: Store, id: string, env: DeleteEnv)
    requires Consistent(s) && TrueLists(s, id, env) && DeleteError(s, id, env).None?
    ensures AfterDelete(s, id, env) == Without(s, id)
  {
    assert DeletedNps(env) == env.listed;
    NpsOnly(s, env.listed);
    OnlyItsHcGoes(s, id, env.found);
    OnlyItsNpsGo(s, id, env.listed);
  }

  lemma WithoutStaysConsistent(s: Store, id: string)
    requires Consistent(s)
    ensures Consistent(Without(s, id)) && !Exists(Without(s, id), id)
  {
  }

  lemma DeleteKeepsConsistent(s: Store, id: string, env: DeleteEnv)
    requires Consistent(s) && TrueLists(s, id, env)
    ensures AllConsistent(DeleteTrace(s, id, env)) && Consistent(AfterDelete(s, id, env))
  {
    if EarlyError(s, id, env).None? {
      NpTraceConsistent(s, DeletedNps(env));
      if DeleteError(s, id, env).None? {
        DeleteRemovesInstance(s, id, env);
        WithoutStaysConsistent(s, id);
      }
    }
  }

  // ---- runs of requests ------------------------------------------------------------------------

  datatype Op =
    | Create(cfg: Config, id: string, req: Request, cenv: CreateEnv)
    | Delete(id: string, denv: DeleteEnv)

  function Trace(s: Store, op: Op): seq<Store> {
    match op
    case Create(cfg, id, req, env) => CreateTrace(s, cfg, id, req, env)
    case Delete(id, env) => DeleteTrace(s, id, env)
  }

  function After(s: Store, op: Op): Store {
    match op
    case Create(cfg, id, req, env) => AfterCreate(s, cfg, id, req, env)
    case Delete(id, env) => AfterDelete(s, id, env)
  }

  /** Requests one after the other, each answered truthfully by the store it finds. */
  ghost predicate Truthful(s: Store, ops: seq<Op>)
    decreases |ops|
  {
    ops == []
    || ((ops[0].Delete? ==> TrueLists(s, ops[0].id, ops[0].denv)) && Truthful(After(s, ops[0]), ops[1..]))
  }

  /** Every state any of the requests writes. */
  function States(s: Store, ops: seq<Op>): seq<Store>
    decreases |ops|
  {
    if ops == [] then [] else Trace(s, ops[0]) + States(After(s, ops[0]), ops[1..])
  }

  /**
   * From a consistent store, in particular the empty one, no run of creates and deletes with
   * any failures ever passes through a state with two HCs of one ID or an orphaned NodePool.
   */
  lemma {:induction false} RunsStayConsistent(s: Store, ops: seq<Op>)
    requires Consistent(s) && Truthful(s, ops)
    ensures AllConsistent(States(s, ops))
    decreases |ops|
  {
    if ops != [] {
      match ops[0] {
        case Create(cfg, id, req, env) => CreateKeepsConsistent(s, cfg, id, req, env);
        case Delete(id, env) => DeleteKeepsConsistent(s, id, env);
      }
      RunsStayConsistent(After(s, ops[0]), ops[1..]);
    }
  }

  lemma EmptyStoreRuns(ops: seq<Op>)
    requires Truthful(EMPTY, ops)
    ensures AllConsistent(States(EMPTY, ops))
  {
    RunsStayConsistent(EMPTY, ops);
  }

  // ---- when a create succeeds, and why it fails ---------------------------------------------------

  ghost predicate HasDomain(cfg: Config, req: Request) {
    (req.baseDomain.Some? && req.baseDomain.value != "") || (req.baseDomain.None? && cfg.baseDomain != "")
  }

  /** The matrix creation goes by: the configured one, or the default in place of an empty one. */
  ghost predicate GoesBy(cfg: Config, m: Matrix) {
    (cfg.matrix != map[] && m == cfg.matrix) || (cfg.matrix == map[] && m == DEFAULT)
  }

  /** The image of the new cluster: the one asked for, or one the catalogue offers. */
  ghost predicate HasImage(cfg: Config, req: Request, env: CreateEnv, image: string) {
    || req.image == Some(image)
    || (req.image.None? && env.images.Some?
        && exists m :: GoesBy(cfg, m) && Offers(m, env.order, env.images.value, req.version, image))
  }

  /** The version is one the matrix knows. */
  ghost predicate Known(cfg: Config, req: Request, env: CreateEnv) {
    exists m, i :: GoesBy(cfg, m) && FirstKey(m, env.order, req.version, i)
  }

  ghost predicate HasSomeImage(cfg: Config, req: Request, env: CreateEnv) {
    exists image :: HasImage(cfg, req, env, image)
  }

  ghost predicate IdTaken(s: Store, id: string) {
    exists n :: n in s.hcs && s.hcs[n].id == id
  }

  lemma GoesByEffective(cfg: Config, m: Matrix)
    ensures GoesBy(cfg, m) <==> m == Effective(cfg.matrix)
  {
    assert cfg.matrix == map[] <==> |cfg.matrix| == 0;
  }

  lemma ImageIff(cfg: Config, req: Request, env: CreateEnv)
    ensures forall image :: Image(cfg, req, env) == Ok(image) <==> HasImage(cfg, req, env, image)
    ensures Image(cfg, req, env) == Err(Internal) <==>
              req.image.None? && env.images.None? && Known(cfg, req, env)
    ensures Image(cfg, req, env) == Err(Unprocessable) <==>
              && req.image.None? && !HasSomeImage(cfg, req, env)
              && (env.images.Some? || !Known(cfg, req, env))
    ensures Image(cfg, req, env).Err? ==> Image(cfg, req, env).error in {Internal, Unprocessable}
  {
    var m := Effective(cfg.matrix);
    GoesByEffective(cfg, m);
    forall x ensures GoesBy(cfg, x) <==> x == m {
      GoesByEffective(cfg, x);
    }
    if req.image.None? {
      ResolveIff(m, env.order, env.images, req.version);
      KnownIff(cfg, req, env, m);
    } else {
      assert HasImage(cfg, req, env, req.image.value);
    }
  }

  lemma KnownIff(cfg: Config, req: Request, env: CreateEnv, m: Matrix)
    requires forall x :: GoesBy(cfg, x) <==> x == m
    ensures Known(cfg, req, env) <==> exists i :: FirstKey(m, env.order, req.version, i)
    ensures req.image.None? && env.images.Some? ==>
              forall image :: HasImage(cfg, req, env, image)
                <==> Offers(m, env.order, env.images.value, req.version, image)
  {
    assert GoesBy(cfg, m);
  }

  /** Nothing stands in the way of the writes. */
  ghost predicate Admitted(s: Store, cfg: Config, id: string, req: Request, env: CreateEnv) {
    HasDomain(cfg, req) && HasSomeImage(cfg, req, env) && !env.listFails && !IdTaken(s, id)
  }

  /** Admitted, and the HC is written; the NodePool comes next. */
  ghost predicate HcWritten(s: Store, cfg: Config, id: string, req: Request, env: CreateEnv) {
    Admitted(s, cfg, id, req, env) && !env.hcFails && req.name !in s.hcs
  }

  /** A create succeeds exactly if nothing is missing or taken and no write fails; why not, if not. */
  lemma CreateOutcome(s: Store, cfg: Config, id: string, req: Request, env: CreateEnv)
    ensures var r := CreateResult(s, cfg, id, req, env);
      && (r.Ok? <==> HcWritten(s, cfg, id, req, env) && req.name !in s.nps && !env.npFails)
      && (r == Err(InvalidArgument) <==> !HasDomain(cfg, req))
      && (r == Err(Unprocessable) <==>
            && HasDomain(cfg, req) && !HasSomeImage(cfg, req, env)
            && (env.images.Some? || !Known(cfg, req, env)))
      && (r == Err(AlreadyExists) <==>
            && HasDomain(cfg, req) && HasSomeImage(cfg, req, env) && !env.listFails
            && (IdTaken(s, id) || (!env.hcFails && req.name in s.hcs)))
      && (r == Err(RollbackFailed) <==>
            HcWritten(s, cfg, id, req, env) && (env.npFails || req.name in s.nps) && env.rollbackFails)
      && (r == Err(Internal) <==>
            || (HasDomain(cfg, req) && !HasSomeImage(cfg, req, env) && env.images.None? && Known(cfg, req, env))
            || (HasDomain(cfg, req) && HasSomeImage(cfg, req, env) && env.listFails)
            || (Admitted(s, cfg, id, req, env) && env.hcFails)
            || (HcWritten(s, cfg, id, req, env) && (env.npFails || req.name in s.nps) && !env.rollbackFails))
      && r != Err(NotFound)
  {
    ImageIff(cfg, req, env);
    var image := Image(cfg, req, env);
    assert HasSomeImage(cfg, req, env) <==> image.Ok? by {
      if image.Ok? {
        assert HasImage(cfg, req, env, image.value);
      }
    }
    assert IdTaken(s, id) <==> Exists(s, id);
  }

  /** This is the HC asked for: of that name and ID, with its image, and nothing known about it yet. */
  ghost predicate AskedFor(hc: HostedCluster, cfg: Config, id: string, req: Request, env: CreateEnv) {
    && hc.name == req.name && hc.id == id && HasImage(cfg, req, env, hc.image)
    && hc.conditions == [] && !hc.deleting && hc.created == Some(env.created)
  }

  /** What is answered and what is stored then: one new HC and its NodePool, nothing else. */
  lemma CreatedAsAsked(s: Store, cfg: Config, id: string, req: Request, env: CreateEnv)
    requires CreateResult(s, cfg, id, req, env).Ok?
    ensures var answer := CreateResult(s, cfg, id, req, env).value;
      && answer.id == id && answer.name == req.name && answer.version == req.version
      && answer.status == PENDING && answer.message == None
      && answer.createTime == Some(env.now) && answer.updateTime == Some(env.now)
    ensures exists hc ::
              && AskedFor(hc, cfg, id, req, env)
              && AfterCreate(s, cfg, id, req, env) == Store(s.hcs[req.name := hc], s.nps[req.name := id])
  {
    ImageIff(cfg, req, env);
    assert AskedFor(NewHC(cfg, id, req, env), cfg, id, req, env);
  }

  /** When a delete succeeds, and why it fails. */
  lemma DeleteOutcome(s: Store, id: string, env: DeleteEnv)
    ensures var err := DeleteError(s, id, env);
      && (err == None <==>
            && !env.listFails && IdTaken(s, id) && !env.npListFails
            && (forall n :: n in env.listed ==> n !in env.npFails) && !env.hcFails && env.found in s.hcs)
      && (err == Some(NotFound) <==> !env.listFails && !IdTaken(s, id))
      && (err != None && err != Some(NotFound) ==> err == Some(Internal))
  {
    assert IdTaken(s, id) <==> Exists(s, id);
    var k := NpFailure(env.listed, env.npFails);
    if k < |env.listed| {
      assert env.listed[k] in env.listed;
    }
  }

  /** The deletion gets as far as this listed node pool: neither it nor one before it fails. */
  ghost predicate Reached(env: DeleteEnv, j: int) {
    0 <= j < |env.listed| && forall i :: 0 <= i <= j ==> env.listed[i] !in env.npFails
  }

  /** What a delete takes away: the node pools reached and, if all were and it succeeds, the HC found. */
  lemma DeletedExactly(s: Store, id: string, env: DeleteEnv)
    ensures var t := AfterDelete(s, id, env);
      && (env.listFails || !IdTaken(s, id) || env.npListFails ==> t == s)
      && (!env.listFails && IdTaken(s, id) && !env.npListFails ==>
            && (forall n :: n in t.nps <==> n in s.nps && !exists j :: Reached(env, j) && env.listed[j] == n)
            && (forall n :: n in t.nps ==> t.nps[n] == s.nps[n])
            && t.hcs == if DeleteError(s, id, env).None? then s.hcs - {env.found} else s.hcs)
  {
    assert IdTaken(s, id) <==> Exists(s, id);
    NpsOnly(s, DeletedNps(env));
    var k := NpFailure(env.listed, env.npFails);
    assert k < |env.listed| ==> env.listed[k] in env.npFails;
    assert forall j :: Reached(env, j) <==> 0 <= j < k;
    forall n ensures n in DeletedNps(env) <==> exists j :: Reached(env, j) && env.listed[j] == n {
      if n in DeletedNps(env) {
        var j :| 0 <= j < k && DeletedNps(env)[j] == n;
        assert Reached(env, j) && env.listed[j] == n;
      }
      if j :| Reached(env, j) && env.listed[j] == n {
        assert DeletedNps(env)[j] == n;
      }
    }
  }

  // ---- failed and repeated requests --------------------------------------------------------------

  /** A failed create changes the store exactly when its rollback failed too. */
  lemma FailedCreateIsUndone(s: Store, cfg: Config, id: string, req: Request, env: CreateEnv)
    requires Consistent(s) && CreateResult(s, cfg, id, req, env).Err?
    ensures AfterCreate(s, cfg, id, req, env) != s <==> CreateResult(s, cfg, id, req, env) == Err(RollbackFailed)
    ensures CreateResult(s, cfg, id, req, env) == Err(RollbackFailed) ==>
              var t := AfterCreate(s, cfg, id, req, env);
              && Exists(t, id) && Without(t, id) == s
    ensures CreateResult(s, cfg, id, req, env) == Err(RollbackFailed) <==>
              Refusal(s, cfg, id, req, env).None? && env.npFails && env.rollbackFails
  {
    if Refusal(s, cfg, id, req, env).None? {
      CreatedIsNew(s, cfg, id, req, env);
    }
  }

  /** The instance being created owned nothing before, not even a NodePool of that name. */
  lemma CreatedIsNew(s: Store, cfg: Config, id: string, req: Request, env: CreateEnv)
    requires Consistent(s) && Refusal(s, cfg, id, req, env).None?
    ensures req.name !in s.nps && !Exists(s, id)
    ensures forall n :: n in s.nps ==> s.nps[n] != id
    ensures var s1 := WithHC(s, NewHC(cfg, id, req, env));
            Exists(s1, id) && Without(s1, id) == s && Without(s1.(nps := s.nps[req.name := id]), id) == s && s1 != s
  {
    assert Consistent(s) && !Exists(s, id) && req.name !in s.hcs;
    NewPartsGoAgain(s, NewHC(cfg, id, req, env));
  }

  /** Taking an instance away again that had nothing in the store leaves the store as it was. */
  lemma NewPartsGoAgain(s: Store, hc: HostedCluster)
    requires NoOrphans(s) && !Exists(s, hc.id) && hc.name !in s.hcs
    ensures var s1 := WithHC(s, hc);
            && Exists(s1, hc.id) && s1 != s
            && Without(s1, hc.id) == s && Without(s1.(nps := s.nps[hc.name := hc.id]), hc.id) == s
  {
    var s1 := WithHC(s, hc);
    assert hc.name in s1.hcs;
    assert Without(s1, hc.id).hcs == s.hcs && Without(s1, hc.id).nps == s.nps;
    assert Without(s1.(nps := s.nps[hc.name := hc.id]), hc.id).nps == s.nps;
  }

  /** A create that succeeded, or whose rollback failed, added this instance and no other. */
  lemma CreateAddsOnlyIt(s: Store, cfg: Config, id: string, req: Request, env: CreateEnv)
    requires Consistent(s)
    requires CreateResult(s, cfg, id, req, env).Ok? || CreateResult(s, cfg, id, req, env) == Err(RollbackFailed)
    ensures var t := AfterCreate(s, cfg, id, req, env);
            Consistent(t) && Exists(t, id) && Without(t, id) == s
  {
    CreatedIsNew(s, cfg, id, req, env);
    CreateKeepsConsistent(s, cfg, id, req, env);
  }

  lemma FaultFreeDelete(s: Store, id: string, env: DeleteEnv)
    requires Consistent(s) && Exists(s, id) && TrueLists(s, id, env) && FaultFree(env)
    ensures DeleteError(s, id, env).None? && AfterDelete(s, id, env) == Without(s, id)
  {
    DeleteRemovesInstance(s, id, env);
  }

  /** Deleting what was created, or what a failed rollback left, restores the store. */
  lemma DeleteUndoesCreate(s: Store, cfg: Config, id: string, req: Request, env: CreateEnv, denv: DeleteEnv)
    requires Consistent(s)
    requires CreateResult(s, cfg, id, req, env).Ok? || CreateResult(s, cfg, id, req, env) == Err(RollbackFailed)
    requires TrueLists(AfterCreate(s, cfg, id, req, env), id, denv) && FaultFree(denv)
    ensures var t := AfterCreate(s, cfg, id, req, env);
            DeleteError(t, id, denv).None? && AfterDelete(t, id, denv) == s
  {
    CreateAddsOnlyIt(s, cfg, id, req, env);
    FaultFreeDelete(AfterCreate(s, cfg, id, req, env), id, denv);
  }

  /** A failed delete keeps every HC and touches no NodePool of another instance. */
  lemma FailedDeleteKeepsHc(s: Store, id: string, env: DeleteEnv)
    requires Consistent(s) && TrueLists(s, id, env) && DeleteError(s, id, env).Some?
    ensures var t := AfterDelete(s, id, env); t.hcs == s.hcs && Without(t, id) == Without(s, id)
    ensures Consistent(AfterDelete(s, id, env))
  {
    DeleteKeepsConsistent(s, id, env);
    if EarlyError(s, id, env).None? {
      var t := AfterNps(s, DeletedNps(env));
      NpsOnly(s, DeletedNps(env));
      assert forall n :: n in DeletedNps(env) ==> n in env.listed;
      assert Without(t, id).nps == Without(s, id).nps;
    }
  }

  /** Failed attempts to delete an instance, one after the other. */
  ghost predicate FailedDeletes(s: Store, id: string, envs: seq<DeleteEnv>)
    decreases |envs|
  {
    envs == []
    || (TrueLists(s, id, envs[0]) && DeleteError(s, id, envs[0]).Some?
        && FailedDeletes(AfterDelete(s, id, envs[0]), id, envs[1..]))
  }

  function AfterDeletes(s: Store, id: string, envs: seq<DeleteEnv>): Store
    decreases |envs|
  {
    if envs == [] then s else AfterDeletes(AfterDelete(s, id, envs[0]), id, envs[1..])
  }

  /**
   * Deletion can be resumed: after any number of failed attempts the HC is still there, and
   * one fault-free attempt removes it with all its NodePools, and nothing else.
   */
  lemma {:induction false} DeleteIsResumable(s: Store, id: string, envs: seq<DeleteEnv>, last: DeleteEnv)
    requires Consistent(s) && Exists(s, id) && FailedDeletes(s, id, envs)
    requires TrueLists(AfterDeletes(s, id, envs), id, last) && FaultFree(last)
    ensures Exists(AfterDeletes(s, id, envs), id)
    ensures DeleteError(AfterDeletes(s, id, envs), id, last).None?
    ensures AfterDelete(AfterDeletes(s, id, envs), id, last) == Without(s, id)
    decreases |envs|
  {
    if envs == [] {
      DeleteRemovesInstance(s, id, last);
    } else {
      FailedDeleteKeepsHc(s, id, envs[0]);
      var t := AfterDelete(s, id, envs[0]);
      assert Exists(t, id);
      DeleteIsResumable(t, id, envs[1..], last);
    }
  }

  // ---- reading back ---------------------------------------------------------------------------------

  /** GetCluster over the HC found for the ID. */
  function Get(s: Store, cfg: Config, id: string, found: string, listFails: bool): Result<Cluster, Error>
    requires Exists(s, id) ==> found in s.hcs
  {
    if listFails then Err(Internal)
    else if !Exists(s, id) then Err(NotFound)
    else Ok(ToCluster(s.hcs[found], cfg.matrix))
  }

  /** When a cluster is returned, which one, and why none is. */
  lemma GetOutcome(s: Store, cfg: Config, id: string, found: string, listFails: bool)
    requires IdTaken(s, id) ==> found in s.hcs && s.hcs[found].id == id
    ensures Exists(s, id) ==> found in s.hcs
    ensures var r := Get(s, cfg, id, found, listFails);
      && (r.Ok? <==> !listFails && IdTaken(s, id))
      && (r.Ok? ==> r.value.id == id && r.value.name == s.hcs[found].name && r.value == ToCluster(s.hcs[found], cfg.matrix))
      && (r == Err(NotFound) <==> !listFails && !IdTaken(s, id))
      && (r == Err(Internal) <==> listFails)
  {
    assert IdTaken(s, id) <==> Exists(s, id);
  }

  /**
   * Reading a new cluster back gives the ID, name, status and message of the create's answer,
   * and the requested version, for a non-empty matrix that does not give that version to the
   * empty key. Both times read back are the HC's creation timestamp, so that the two answers
   * are the same exactly when the service's clock showed that time as well.
   */
  lemma CreatedIsReadBack(s: Store, cfg: Config, id: string, req: Request, env: CreateEnv, found: string)
    requires Consistent(s) && CreateResult(s, cfg, id, req, env).Ok?
    requires var t := AfterCreate(s, cfg, id, req, env); found in t.hcs && t.hcs[found].id == id
    requires req.image.None? && |cfg.matrix| > 0 && Enumerates(env.order, cfg.matrix)
    requires !("" in cfg.matrix && cfg.matrix[""] == req.version && req.version != "")
    ensures var answer := CreateResult(s, cfg, id, req, env).value;
            var got := Get(AfterCreate(s, cfg, id, req, env), cfg, id, found, false);
            && got == Ok(answer.(createTime := Some(env.created), updateTime := Some(env.created)))
            && (got == Ok(answer) <==> env.created == env.now)
  {
    CreatedIsStored(s, cfg, id, req, env, found);
    VersionIsReadBack(cfg, req, env);
    NewHcIsPending(cfg, id, req, env);
  }

  lemma CreatedIsStored(s: Store, cfg: Config, id: string, req: Request, env: CreateEnv, found: string)
    requires Consistent(s) && CreateResult(s, cfg, id, req, env).Ok?
    requires var t := AfterCreate(s, cfg, id, req, env); found in t.hcs && t.hcs[found].id == id
    ensures Image(cfg, req, env).Ok?
    ensures AfterCreate(s, cfg, id, req, env).hcs[found] == NewHC(cfg, id, req, env)
  {
    CreatedIsNew(s, cfg, id, req, env);
  }

  lemma VersionIsReadBack(cfg: Config, req: Request, env: CreateEnv)
    requires req.image.None? && |cfg.matrix| > 0 && Enumerates(env.order, cfg.matrix)
    requires !("" in cfg.matrix && cfg.matrix[""] == req.version && req.version != "")
    requires Image(cfg, req, env).Ok?
    ensures ReleaseImageToK8sVersion(Image(cfg, req, env).value, cfg.matrix) == req.version
  {
    MapsBackIff(cfg.matrix, req.version);
    assert env.images.Some?;
    assert Image(cfg, req, env) == Resolve(cfg.matrix, env.order, Some(env.images.value), req.version);
  }

  lemma NewHcIsPending(cfg: Config, id: string, req: Request, env: CreateEnv)
    requires Image(cfg, req, env).Ok?
    ensures var cl := ToCluster(NewHC(cfg, id, req, env), cfg.matrix);
            cl == Cluster(id, req.name, PENDING, None, cl.version, Some(env.created), Some(env.created), NO_ACCESS)
            && cl.version == ReleaseImageToK8sVersion(Image(cfg, req, env).value, cfg.matrix)
  {
    assert MapConditions([], false) == PENDING;
  }
}
