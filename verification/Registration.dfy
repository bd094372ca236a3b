// Registration with DCM: one attempt, the capped backoff around it, and the version watcher.
module Registration {
  import opened Int64
  import opened Ordering
  import opened Versions
  import opened Wrappers

  // ---- one attempt --------------------------------------------------------------------

  datatype Reply = Unreachable | Status(code: int)

  /**
   * The surroundings of one attempt: the catalogue it lists (None: the listing fails), DCM's
   * reply, and whether cancellation wins the wait that follows a retryable failure.
   */
  datatype Attempt = Attempt(listing: Option<seq<string>>, reply: Reply, cancelled: bool)

  datatype Failure = Retryable | Fatal

  function Classify(reply: Reply, versions: seq<string>): Result<seq<string>, Failure> {
    match reply
    case Unreachable => Err(Retryable)
    case Status(code) =>
      if code == 200 || code == 201 then Ok(versions)
      else if 400 <= code < 500 then Err(Fatal)
      else Err(Retryable)
  }

  /** What DCM accepted, or why not. */
  function RegisterOnce(m: Matrix, a: Attempt): Result<seq<string>, Failure> {
    if a.listing.None? then Err(Fatal) else Classify(a.reply, Discover(m, a.listing.value))
  }

  /** Accepted are the versions this attempt's own catalogue offers, on 200 or 201 only. */
  method Register(m: Matrix, a: Attempt) returns (r: Result<seq<string>, Failure>)
    ensures r == RegisterOnce(m, a)
    ensures r.Ok? <==> a.listing.Some? && a.reply.Status? && a.reply.code in {200, 201}
    ensures r.Ok? ==> Discovered(m, a.listing.value, r.value)
    ensures r == Err(Fatal) <==> a.listing.None? || (a.reply.Status? && 400 <= a.reply.code < 500)
  {
    var versions := DiscoverVersions(m, a.listing);
    if versions.Err? {
      return Err(Fatal);
    }
    if a.reply.Unreachable? {
      return Err(Retryable);
    }
    var code := a.reply.code;
    if code == 200 || code == 201 {
      r := Ok(versions.value);
    } else if code >= 400 && code < 500 {
      r := Err(Fatal);
    } else {
      r := Err(Retryable);
    }
  }

  // ---- retries ---------------------------------------------------------------------------

  /** One attempt as the retry loop sees it. */
  datatype Outcome = Outcome(result: Result<seq<string>, Failure>, cancelled: bool)

  function Outcomes(m: Matrix, script: seq<Attempt>): (outs: seq<Outcome>)
    ensures |outs| == |script|
  {
    if script == [] then []
    else [Outcome(RegisterOnce(m, script[0]), script[0].cancelled)] + Outcomes(m, script[1..])
  }

  lemma {:induction false} OutcomeAt(m: Matrix, script: seq<Attempt>, i: nat)
    requires i < |script|
    ensures Outcomes(m, script)[i] == Outcome(RegisterOnce(m, script[i]), script[i].cancelled)
  {
    if i > 0 {
      OutcomeAt(m, script[1..], i - 1);
    }
  }

  /** Doubled in 64 bits, then capped. */
  function CappedDouble(wait: int, max: int): int {
    var doubled := Wrap(2 * wait);
    if doubled > max then max else doubled
  }

  /** The n-th wait. */
  function WaitAt(initial: int, max: int, n: nat): int {
    if n == 0 then initial else CappedDouble(WaitAt(initial, max, n - 1), max)
  }

  /** The versions accepted; None if the retries end otherwise. */
  function Accepted(outs: seq<Outcome>): Option<seq<string>> {
    if outs == [] then None
    else match outs[0].result
      case Ok(versions) => Some(versions)
      case Err(Fatal) => None
      case Err(Retryable) => if outs[0].cancelled then None else Accepted(outs[1..])
  }

  /** How many waits are begun: one for each attempt reached that fails retryably. */
  function Retries(outs: seq<Outcome>): nat {
    if outs == [] || outs[0].result != Err(Retryable) then 0
    else if outs[0].cancelled then 1
    else 1 + Retries(outs[1..])
  }

  method CallRegister(m: Matrix, script: seq<Attempt>, i: nat) returns (r: Result<seq<string>, Failure>)
    requires i < |script|
    ensures r == Outcomes(m, script)[i].result && script[i].cancelled == Outcomes(m, script)[i].cancelled
  {
    OutcomeAt(m, script, i);
    r := Register(m, script[i]);
  }

  method NextBackoff(backoff: int, max: int) returns (next: int)
    ensures next == CappedDouble(backoff, max)
  {
    next := Wrap(2 * backoff);
    if next > max {
      next := max;
    }
  }

  /** What attempt i decides, and what is left to the ones after it. */
  lemma FromAttempt(outs: seq<Outcome>, i: nat)
    requires i < |outs|
    ensures outs[i].result.Ok? ==> Accepted(outs[i..]) == Some(outs[i].result.value) && Retries(outs[i..]) == 0
    ensures outs[i].result == Err(Fatal) ==> Accepted(outs[i..]) == None && Retries(outs[i..]) == 0
    ensures outs[i].result == Err(Retryable) ==>
              && Accepted(outs[i..]) == (if outs[i].cancelled then None else Accepted(outs[i+1..]))
              && Retries(outs[i..]) == 1 + (if outs[i].cancelled then 0 else Retries(outs[i+1..]))
  {
    assert outs[i..][1..] == outs[i+1..];
  }

  /** Each wait is the one its position calls for. */
  ghost predicate Scheduled(waits: seq<int>, initial: int, max: int) {
    forall n :: 0 <= n < |waits| ==> waits[n] == WaitAt(initial, max, n)
  }

  lemma OneMoreWait(waits: seq<int>, initial: int, max: int)
    requires Scheduled(waits, initial, max)
    ensures Scheduled(waits + [WaitAt(initial, max, |waits|)], initial, max)
  {
  }

  /** `script` lists the attempts in order; where it ends, cancellation wins the wait. */
  method RegisterWithRetry(m: Matrix, initial: int, max: int, script: seq<Attempt>)
    returns (accepted: Option<seq<string>>, waits: seq<int>)
    ensures accepted == Accepted(Outcomes(m, script))
    ensures |waits| == Retries(Outcomes(m, script))
    ensures Scheduled(waits, initial, max)
  {
    ghost var outs := Outcomes(m, script);
    var backoff := initial;
    waits := [];
    for i := 0 to |script|
      invariant |waits| == i && backoff == WaitAt(initial, max, i) && Scheduled(waits, initial, max)
      invariant Accepted(outs) == Accepted(outs[i..])
      invariant Retries(outs) == i + Retries(outs[i..])
    {
      var r := CallRegister(m, script, i);
      FromAttempt(outs, i);
      if r.Ok? {
        return Some(r.value), waits;
      }
      if r.error.Fatal? {
        return None, waits;
      }
      OneMoreWait(waits, initial, max);
      waits := waits + [backoff];
      if script[i].cancelled {
        return None, waits;
      }
      backoff := NextBackoff(backoff, max);
    }
    accepted := None;
  }

  /** Attempt k is reached: every earlier one failed retryably and its wait ran out. */
  ghost predicate Reaches(outs: seq<Outcome>, k: int) {
    forall j :: 0 <= j < k && j < |outs| ==> outs[j] == Outcome(Err(Retryable), false)
  }

  ghost predicate AcceptedAt(outs: seq<Outcome>, k: int) {
    0 <= k < |outs| && Reaches(outs, k) && outs[k].result.Ok?
  }

  /** Registration succeeds exactly when an attempt that is reached is accepted. */
  lemma {:induction false} AcceptedIff(outs: seq<Outcome>)
    ensures Accepted(outs).Some? <==> exists k :: AcceptedAt(outs, k)
    ensures forall k :: AcceptedAt(outs, k) ==> Accepted(outs) == Some(outs[k].result.value)
  {
    if outs != [] {
      var rest := outs[1..];
      AcceptedIff(rest);
      forall k | AcceptedAt(rest, k) && Reaches(outs, 1) ensures AcceptedAt(outs, k + 1) {
        assert forall j :: 1 <= j < k + 1 ==> outs[j] == rest[j-1];
      }
      forall k | AcceptedAt(outs, k) && k > 0 ensures AcceptedAt(rest, k - 1) {
        assert forall j :: 0 <= j < k - 1 ==> rest[j] == outs[j+1];
      }
      assert outs[0].result.Ok? ==> AcceptedAt(outs, 0);
    }
  }

  /** The attempt listed its catalogue, failed in a way that is retried, and its wait ran out. */
  ghost predicate PassedOver(a: Attempt) {
    && a.listing.Some? && !a.cancelled
    && (a.reply.Unreachable? || (a.reply.code !in {200, 201} && !(400 <= a.reply.code < 500)))
  }

  /** DCM accepted attempt k, and the ones before it were passed over. */
  ghost predicate AcceptedAttempt(script: seq<Attempt>, k: int) {
    && 0 <= k < |script|
    && script[k].listing.Some? && script[k].reply.Status? && script[k].reply.code in {200, 201}
    && forall j :: 0 <= j < k ==> PassedOver(script[j])
  }

  lemma AttemptIsUnique(script: seq<Attempt>, k: int)
    requires AcceptedAttempt(script, k)
    ensures forall j :: AcceptedAttempt(script, j) ==> j == k
  {
    forall j | AcceptedAttempt(script, j) ensures j == k {
      assert !PassedOver(script[k]) && !PassedOver(script[j]);
    }
  }

  lemma AcceptedAtIff(m: Matrix, script: seq<Attempt>, k: int)
    ensures AcceptedAt(Outcomes(m, script), k) <==> AcceptedAttempt(script, k)
  {
    forall j | 0 <= j < |script|
      ensures Outcomes(m, script)[j] == Outcome(Err(Retryable), false) <==> PassedOver(script[j])
      ensures Outcomes(m, script)[j].result.Ok? <==>
                script[j].listing.Some? && script[j].reply.Status? && script[j].reply.code in {200, 201}
    {
      OutcomeAt(m, script, j);
    }
  }

  /**
   * DCM ends up with these versions exactly when some attempt is answered 200 or 201, they are
   * the versions its own catalogue offers, and every earlier attempt listed its catalogue, was
   * not answered or answered outside 200, 201 and 400 to 499, and waited its backoff out.
   */
  lemma RegisteredIff(m: Matrix, script: seq<Attempt>, versions: seq<string>)
    ensures Accepted(Outcomes(m, script)) == Some(versions)
       <==> exists k :: AcceptedAttempt(script, k) && Discovered(m, script[k].listing.value, versions)
  {
    var outs := Outcomes(m, script);
    AcceptedIff(outs);
    forall k ensures AcceptedAt(outs, k) <==> AcceptedAttempt(script, k) {
      AcceptedAtIff(m, script, k);
    }
    if k :| AcceptedAttempt(script, k) {
      AttemptIsUnique(script, k);
      OutcomeAt(m, script, k);
      var images := script[k].listing.value;
      DiscoverIsDiscovered(m, images);
      assert AcceptedAt(outs, k) && Accepted(outs) == Some(Discover(m, images));
      if Discovered(m, images, versions) {
        ListsEqualIffSameVersions(m, images, images, versions, Discover(m, images));
      }
    }
  }

  /** Attempt j fails in a way that is retried, so that a wait begins. */
  ghost predicate Waits(a: Attempt) {
    && a.listing.Some?
    && (a.reply.Unreachable? || (a.reply.code !in {200, 201} && !(400 <= a.reply.code < 500)))
  }

  /** The first n attempts each begin a wait, only the last of which may be cut short; no more do. */
  ghost predicate WaitsBegun(script: seq<Attempt>, n: nat) {
    && n <= |script|
    && (forall j :: 0 <= j < n ==> Waits(script[j]) && (j < n - 1 ==> !script[j].cancelled))
    && (n < |script| && (n == 0 || !script[n-1].cancelled) ==> !Waits(script[n]))
  }

  /** How many waits there are: exactly those begun. */
  lemma {:induction false} RetriesMeaning(m: Matrix, script: seq<Attempt>)
    ensures WaitsBegun(script, Retries(Outcomes(m, script)))
  {
    if script != [] {
      var n, rest := Retries(Outcomes(m, script)), script[1..];
      assert Outcomes(m, script)[1..] == Outcomes(m, rest);
      RetriesMeaning(m, rest);
      if Waits(script[0]) && !script[0].cancelled {
        forall j | 0 <= j < n ensures Waits(script[j]) && (j < n - 1 ==> !script[j].cancelled) {
          assert j > 0 ==> script[j] == rest[j-1];
        }
        assert n < |script| ==> script[n] == rest[n-1];
        assert n > 1 ==> script[n-1] == rest[n-2];
      }
    }
  }

  // ---- the backoff formula -----------------------------------------------------------------

  function Min(a: int, b: int): int {
    if a < b then a else b
  }

  const QUARTER := 0x4000_0000_0000_0000

  lemma {:induction false} BackoffFormula(initial: int, max: int, n: nat)
    requires 0 < initial < QUARTER && 0 < max < QUARTER
    ensures n > 0 || initial <= max ==> WaitAt(initial, max, n) == Min(initial * Pow2(n), max)
    ensures n == 0 ==> WaitAt(initial, max, n) == initial
  {
    if n > 0 {
      BackoffFormula(initial, max, n - 1);
      ScaledPow2(initial, n);
      WrapFits(2 * WaitAt(initial, max, n - 1));
    }
  }

  lemma ScaleGrows(initial: int, n: nat)
    requires 0 < initial
    ensures initial * Pow2(n) > n
  {
    Pow2Grows(n);
  }

  lemma ScaleIsMonotone(initial: int, m: nat, n: nat)
    requires 0 < initial && m <= n
    ensures initial * Pow2(m) <= initial * Pow2(n)
  {
    Pow2Monotone(m, n);
  }

  /** Waits never shrink, and from some retry on they all equal the cap. */
  lemma WaitsGrowToTheCap(initial: int, max: int)
    requires 0 < initial <= max < QUARTER
    ensures forall a: nat, b: nat :: a <= b ==> WaitAt(initial, max, a) <= WaitAt(initial, max, b)
    ensures forall n: nat :: n >= max ==> WaitAt(initial, max, n) == max
  {
    forall a: nat, b: nat | a <= b ensures WaitAt(initial, max, a) <= WaitAt(initial, max, b) {
      BackoffFormula(initial, max, a);
      BackoffFormula(initial, max, b);
      ScaleIsMonotone(initial, a, b);
    }
    forall n: nat | n >= max ensures WaitAt(initial, max, n) == max {
      BackoffFormula(initial, max, n);
      ScaleGrows(initial, n);
    }
  }

  /**
   * For all retries the n-th wait is min(initial * 2^n, max) exactly when max < 2^62; for
   * a larger cap some doubling overflows and the wait turns negative.
   */
  lemma BackoffFormulaIff(initial: int, max: int)
    requires 0 < initial <= max < 0x8000_0000_0000_0000
    ensures (forall n: nat :: WaitAt(initial, max, n) == Min(initial * Pow2(n), max)) <==> max < 0x4000_0000_0000_0000
  {
    if max < QUARTER {
      forall n: nat ensures WaitAt(initial, max, n) == Min(initial * Pow2(n), max) {
        BackoffFormula(initial, max, n);
      }
    } else {
      var k := max;
      ScaleGrows(initial, k);
      ScaledPow2(initial, k + 1);
      assert Min(initial * Pow2(k), max) == max;
      if WaitAt(initial, max, k) == max {
        WrapFits(2 * max);
        assert WaitAt(initial, max, k + 1) < 0;
        assert Min(initial * Pow2(k + 1), max) > 0;
      }
    }
  }

  // ---- the version watcher --------------------------------------------------------------------

  /** One check: the catalogue it lists, and the registration attempts it may lead to. */
  datatype Check = Check(listing: Option<seq<string>>, script: seq<Attempt>)

  /** A check as the watcher sees it: the versions found, and the outcomes of its attempts. */
  datatype Seen = Seen(found: Option<seq<string>>, outs: seq<Outcome>)

  function See(m: Matrix, c: Check): Seen {
    Seen(if c.listing.None? then None else Some(Discover(m, c.listing.value)), Outcomes(m, c.script))
  }

  function SeeAll(m: Matrix, checks: seq<Check>): (seen: seq<Seen>)
    ensures |seen| == |checks|
  {
    if checks == [] then [] else SeeAll(m, checks[..|checks|-1]) + [See(m, checks[|checks|-1])]
  }

  lemma SeeOneMore(m: Matrix, checks: seq<Check>)
    requires checks != []
    ensures var seen, n := SeeAll(m, checks), |checks| - 1;
            seen[..n] == SeeAll(m, checks[..n]) && seen[n] == See(m, checks[n])
  {
  }

  /** `last` is the watcher's variable; `held` is what DCM accepted last. */
  datatype Watch = Watch(last: seq<string>, held: seq<string>)

  /** The check finds versions that differ from the remembered ones. */
  predicate Tries(last: seq<string>, s: Seen) {
    s.found.Some? && s.found.value != last
  }

  predicate Reregisters(last: seq<string>, s: Seen) {
    Tries(last, s) && Accepted(s.outs).Some?
  }

  function Step(w: Watch, s: Seen): Watch {
    if Reregisters(w.last, s) then Watch(s.found.value, Accepted(s.outs).value) else w
  }

  function Steps(w: Watch, seen: seq<Seen>): Watch {
    if seen == [] then w else Step(Steps(w, seen[..|seen|-1]), seen[|seen|-1])
  }

  /** At which checks a re-registration is attempted. */
  function Tried(w: Watch, seen: seq<Seen>): seq<bool> {
    if seen == [] then []
    else
      var before := seen[..|seen|-1];
      Tried(w, before) + [Tries(Steps(w, before).last, seen[|seen|-1])]
  }

  /** The state once the watcher loop is entered; None if the goroutine ends before that. */
  function Begin(start: Seen): Option<Watch> {
    if Accepted(start.outs).None? || start.found.None? then None
    else Some(Watch(start.found.value, Accepted(start.outs).value))
  }

  lemma {:induction false} SeeAt(m: Matrix, checks: seq<Check>, i: nat)
    requires i < |checks|
    ensures SeeAll(m, checks)[i] == See(m, checks[i])
  {
    if i < |checks| - 1 {
      SeeAt(m, checks[..|checks|-1], i);
    }
  }

  lemma OneMoreStep(w: Watch, seen: seq<Seen>, s: Seen)
    ensures Steps(w, seen + [s]) == Step(Steps(w, seen), s)
    ensures Tried(w, seen + [s]) == Tried(w, seen) + [Tries(Steps(w, seen).last, s)]
  {
    assert (seen + [s])[..|seen|] == seen;
  }

  /** DCM accepts some attempt of this check. */
  ghost predicate Succeeds(c: Check) {
    exists k :: AcceptedAttempt(c.script, k)
  }

  /**
   * One check: it tries exactly if its listing succeeds and offers other versions than those
   * remembered; if DCM then accepts, the versions the check found are remembered and those of
   * the accepted attempt are held; otherwise nothing changes.
   */
  ghost predicate Ticks(m: Matrix, before: Watch, c: Check, tried: bool, after: Watch) {
    && (tried <==> c.listing.Some? && !Discovered(m, c.listing.value, before.last))
    && (tried && Succeeds(c) ==>
          && Discovered(m, c.listing.value, after.last)
          && forall k :: AcceptedAttempt(c.script, k) ==> Discovered(m, c.script[k].listing.value, after.held))
    && (!(tried && Succeeds(c)) ==> after == before)
  }

  lemma StepTicks(m: Matrix, w: Watch, c: Check)
    ensures Ticks(m, w, c, Tries(w.last, See(m, c)), Step(w, See(m, c)))
  {
    if c.listing.Some? {
      DiscoverIsDiscovered(m, c.listing.value);
      if Discovered(m, c.listing.value, w.last) {
        ListsEqualIffSameVersions(m, c.listing.value, c.listing.value, w.last, Discover(m, c.listing.value));
      }
    }
    AcceptedBySomeAttempt(m, c.script);
  }

  lemma AcceptedBySomeAttempt(m: Matrix, script: seq<Attempt>)
    ensures Accepted(Outcomes(m, script)).Some? <==> exists k :: AcceptedAttempt(script, k)
    ensures forall k :: AcceptedAttempt(script, k) && Accepted(Outcomes(m, script)).Some? ==>
              Discovered(m, script[k].listing.value, Accepted(Outcomes(m, script)).value)
  {
    var accepted := Accepted(Outcomes(m, script));
    if accepted.Some? {
      RegisteredIff(m, script, accepted.value);
    }
    forall k | AcceptedAttempt(script, k)
      ensures accepted.Some? && Discovered(m, script[k].listing.value, accepted.value)
    {
      DiscoverIsDiscovered(m, script[k].listing.value);
      RegisteredIff(m, script, Discover(m, script[k].listing.value));
      AttemptIsUnique(script, k);
    }
  }

  /** The states before, between and after the checks, and which checks tried. */
  ghost predicate TicksThrough(m: Matrix, states: seq<Watch>, checks: seq<Check>, tried: seq<bool>) {
    && |states| == |checks| + 1 && |tried| == |checks|
    && forall i :: 0 <= i < |checks| ==> Ticks(m, states[i], checks[i], tried[i], states[i+1])
  }

  lemma TicksOnce(m: Matrix, states: seq<Watch>, checks: seq<Check>, tried: seq<bool>,
                  c: Check, t: bool, w: Watch)
    requires TicksThrough(m, states, checks, tried) && Ticks(m, states[|checks|], c, t, w)
    ensures TicksThrough(m, states + [w], checks + [c], tried + [t])
  {
    var s, cs, ts := states + [w], checks + [c], tried + [t];
    forall i | 0 <= i < |cs| ensures Ticks(m, s[i], cs[i], ts[i], s[i+1]) {
      assert i < |checks| ==> Ticks(m, states[i], checks[i], tried[i], states[i+1]);
    }
  }

  /** One tick of the watcher's loop; `held` grows by what DCM accepts. */
  method Tick(m: Matrix, initial: int, max: int, lastVersions: seq<string>, held: seq<string>, c: Check)
    returns (last: seq<string>, nowHeld: seq<string>, tried: bool)
    ensures Watch(last, nowHeld) == Step(Watch(lastVersions, held), See(m, c))
    ensures tried == Tries(lastVersions, See(m, c))
    ensures Ticks(m, Watch(lastVersions, held), c, tried, Watch(last, nowHeld))
  {
    StepTicks(m, Watch(lastVersions, held), c);
    last, nowHeld, tried := lastVersions, held, false;
    var current := DiscoverVersions(m, c.listing);
    if current.Err? || lastVersions == current.value {
      return;
    }
    tried := true;
    var accepted, _ := RegisterWithRetry(m, initial, max, c.script);
    if accepted.None? {
      return;
    }
    nowHeld := accepted.value;
    last := current.value;
  }

  /** Register, then take the baseline. */
  method Startup(m: Matrix, initial: int, max: int, start: Check) returns (w: Option<Watch>)
    ensures w == Begin(See(m, start))
    ensures w.Some? <==> start.listing.Some? && Succeeds(start)
    ensures w.Some? ==> Discovered(m, start.listing.value, w.value.last)
    ensures w.Some? ==>
              forall k :: AcceptedAttempt(start.script, k) ==> Discovered(m, start.script[k].listing.value, w.value.held)
  {
    AcceptedBySomeAttempt(m, start.script);
    var accepted, _ := RegisterWithRetry(m, initial, max, start.script);
    if accepted.None? {
      return None;
    }
    var baseline := DiscoverVersions(m, start.listing);
    if baseline.Err? {
      return None;
    }
    w := Some(Watch(baseline.value, accepted.value));
  }

  /** The ticker loop; `tried` says at which checks a re-registration was attempted. */
  method WatchVersions(m: Matrix, initial: int, max: int, w: Watch, checks: seq<Check>)
    returns (end: Watch, tried: seq<bool>, ghost states: seq<Watch>)
    ensures end == Steps(w, SeeAll(m, checks))
    ensures tried == Tried(w, SeeAll(m, checks))
    ensures TicksThrough(m, states, checks, tried) && states[0] == w && end == states[|checks|]
  {
    var last, held := w.last, w.held;
    tried, states := [], [w];
    ghost var seen := SeeAll(m, checks);
    for i := 0 to |checks|
      invariant TicksThrough(m, states, checks[..i], tried) && states[0] == w && Watch(last, held) == states[i]
      invariant Watch(last, held) == Steps(w, seen[..i])
      invariant tried == Tried(w, seen[..i])
    {
      SeeAt(m, checks, i);
      assert seen[..i+1] == seen[..i] + [seen[i]];
      OneMoreStep(w, seen[..i], seen[i]);
      var t: bool;
      last, held, t := Tick(m, initial, max, last, held, checks[i]);
      TicksOnce(m, states, checks[..i], tried, checks[i], t, Watch(last, held));
      assert checks[..i+1] == checks[..i] + [checks[i]];
      tried := tried + [t];
      states := states + [Watch(last, held)];
    }
    assert seen[..|seen|] == seen && checks[..|checks|] == checks;
    end := Watch(last, held);
  }

  /** The registration goroutine. */
  method Run(m: Matrix, initial: int, max: int, start: Check, checks: seq<Check>) returns (end: Option<Watch>)
    ensures end == match Begin(See(m, start))
                   case None => None
                   case Some(w) => Some(Steps(w, SeeAll(m, checks)))
    ensures end.Some? <==> start.listing.Some? && Succeeds(start)
  {
    var w := Startup(m, initial, max, start);
    if w.None? {
      return None;
    }
    var e, _, _ := WatchVersions(m, initial, max, w.value, checks);
    end := Some(e);
  }

  /** The check that led to the last successful registration, or the startup. */
  function LastRegistered(m: Matrix, start: Check, checks: seq<Check>): (c: Check)
    requires Begin(See(m, start)).Some?
    ensures c == start || c in checks
  {
    if checks == [] then start
    else
      var before, last := checks[..|checks|-1], checks[|checks|-1];
      if Reregisters(Steps(Begin(See(m, start)).value, SeeAll(m, before)).last, See(m, last)) then last
      else LastRegistered(m, start, before)
  }

  /** What the watcher remembers was found at that check; what DCM holds, at its attempt. */
  lemma {:induction false} WatchFollowsLastRegistered(m: Matrix, start: Check, checks: seq<Check>)
    requires Begin(See(m, start)).Some?
    ensures var c, w := LastRegistered(m, start, checks), Steps(Begin(See(m, start)).value, SeeAll(m, checks));
            See(m, c).found == Some(w.last) && Accepted(Outcomes(m, c.script)) == Some(w.held)
  {
    if checks != [] {
      WatchFollowsLastRegistered(m, start, checks[..|checks|-1]);
      SeeOneMore(m, checks);
    }
  }

  /**
   * Over any run, what the watcher remembers is what DCM holds exactly when, at the last check
   * that registered, the catalogue listed by the accepted attempt offered the same versions as
   * the one listed by the check.
   */
  lemma InSyncIff(m: Matrix, start: Check, checks: seq<Check>)
    requires Begin(See(m, start)).Some?
    ensures var c, w := LastRegistered(m, start, checks), Steps(Begin(See(m, start)).value, SeeAll(m, checks));
            && c.listing.Some?
            && (exists k :: AcceptedAttempt(c.script, k))
            && forall k :: AcceptedAttempt(c.script, k) ==>
                 (w.last == w.held <==> Advertised(m, c.script[k].listing.value) == Advertised(m, c.listing.value))
  {
    var c, w := LastRegistered(m, start, checks), Steps(Begin(See(m, start)).value, SeeAll(m, checks));
    WatchFollowsLastRegistered(m, start, checks);
    RegisteredIff(m, c.script, w.held);
    DiscoverIsDiscovered(m, c.listing.value);
    forall k | AcceptedAttempt(c.script, k)
      ensures w.last == w.held <==> Advertised(m, c.script[k].listing.value) == Advertised(m, c.listing.value)
    {
      AttemptIsUnique(c.script, k);
      ListsEqualIffSameVersions(m, c.listing.value, c.script[k].listing.value, w.last, w.held);
    }
  }

  ghost predicate SameImages(a: seq<string>, b: seq<string>) {
    forall image :: image in a <==> image in b
  }

  /** Within this step every listing that succeeds shows the same images. */
  ghost predicate Stable(c: Check) {
    forall a :: a in c.script && a.listing.Some? && c.listing.Some? ==> SameImages(a.listing.value, c.listing.value)
  }

  /** So with a catalogue that is stable within each step the two never differ. */
  lemma WatcherIsInSync(m: Matrix, start: Check, checks: seq<Check>)
    requires Begin(See(m, start)).Some? && Stable(start) && forall c :: c in checks ==> Stable(c)
    ensures var w := Steps(Begin(See(m, start)).value, SeeAll(m, checks)); w.last == w.held
  {
    InSyncIff(m, start, checks);
    var c := LastRegistered(m, start, checks);
    var k :| AcceptedAttempt(c.script, k);
    assert c.script[k] in c.script;
    assert Advertised(m, c.script[k].listing.value) == Advertised(m, c.listing.value);
  }

  /**
   * While re-registration keeps failing, the remembered versions stay what they were, so every
   * later successful check tries again, unless the versions have reverted.
   */
  lemma {:induction false} FailureIsRetried(m: Matrix, w: Watch, checks: seq<Check>)
    requires forall c :: c in checks ==> !Succeeds(c)
    ensures Steps(w, SeeAll(m, checks)) == w
    ensures |Tried(w, SeeAll(m, checks))| == |checks|
    ensures forall i :: 0 <= i < |checks| ==>
              Tried(w, SeeAll(m, checks))[i]
                == (checks[i].listing.Some? && !Discovered(m, checks[i].listing.value, w.last))
  {
    if checks != [] {
      var init, c := checks[..|checks|-1], checks[|checks|-1];
      FailureIsRetried(m, w, init);
      SeeOneMore(m, checks);
      assert c in checks;
      StepTicks(m, w, c);
    }
  }

  /** A watcher that is out of step with DCM stays so for as long as the catalogue stands still. */
  lemma {:induction false} DriftIsNotRepaired(m: Matrix, w: Watch, checks: seq<Check>)
    requires w.last != w.held
    requires forall c :: c in checks && c.listing.Some? ==> Discovered(m, c.listing.value, w.last)
    ensures Steps(w, SeeAll(m, checks)) == w
  {
    if checks != [] {
      DriftIsNotRepaired(m, w, checks[..|checks|-1]);
      SeeOneMore(m, checks);
      assert checks[|checks|-1] in checks;
      StepTicks(m, w, checks[|checks|-1]);
    }
  }

  /** This check takes the watcher out of step. */
  ghost predicate Drifts(m: Matrix, w: Watch, c: Check) {
    var after := Step(w, See(m, c));
    w.last == w.held && after.last != after.held
  }

  lemma OneImage(m: Matrix, image: string)
    requires m == map["4.17" := "1.30"] && image == "" + ":" + ("4.17" + "")
    ensures Discover(m, []) == [] && Discover(m, [image]) == ["1.30"]
  {
    assert MinorParts("4.17", "4", "17");
    ExtractTag("", "4.17", "");
    assert [image][..0] == [];
    assert Discover(m, [image]) == Insert("1.30", [], ID);
  }

  lemma FlipDrifts(m: Matrix, v: seq<string>, listing: seq<string>)
    requires v != [] && Discover(m, []) == [] && Discover(m, listing) == v
    ensures exists w, c :: Drifts(m, w, c)
  {
    var w := Watch(v, v);
    var c := Check(Some([]), [Attempt(Some(listing), Status(200), false)]);
    var outs := Outcomes(m, c.script);
    OutcomeAt(m, c.script, 0);
    assert outs[0].result == Ok(v);
    assert Accepted(outs) == Some(v);
    assert Step(w, See(m, c)) == Watch([], v);
    assert Drifts(m, w, c);
  }

  /** It can happen: the catalogue flips back between the check and the attempt. */
  lemma DriftIsReachable()
    ensures exists m, w, c :: Drifts(m, w, c)
  {
    var m: Matrix := map["4.17" := "1.30"];
    var image := "" + ":" + ("4.17" + "");
    OneImage(m, image);
    FlipDrifts(m, ["1.30"], [image]);
  }
}
