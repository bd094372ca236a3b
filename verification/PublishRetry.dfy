// publishWithRetry: bounded attempts with a doubling wait, cut short by cancellation.
module PublishRetry {
  import opened Int64

  datatype Outcome = Delivered | Cancelled | Dropped

  /** What one call did: its outcome, the Publish calls made and the waits completed. */
  datatype Report = Report(outcome: Outcome, calls: nat, waits: nat)

  /** The wait after failed attempt n: the interval doubled n times in 64 bits. */
  function Backoff(interval: int, n: nat): int {
    if n == 0 then interval else Wrap(2 * Backoff(interval, n - 1))
  }

  /** A timer with a negative duration fires at once. */
  function Waited(d: int): nat {
    if d < 0 then 0 else d
  }

  function Elapsed(interval: int, waits: nat): nat {
    if waits == 0 then 0 else Elapsed(interval, waits - 1) + Waited(Backoff(interval, waits - 1))
  }

  /** The run from the given attempt on: `ok` answers Publish, `cancelled` the wait after it. */
  function Attempts(ok: nat -> bool, cancelled: nat -> bool, retryMax: int, attempt: nat): Report
    decreases if attempt <= retryMax then retryMax - attempt + 1 else 0
  {
    if attempt > retryMax then Report(Dropped, attempt, attempt)
    else if ok(attempt) then Report(Delivered, attempt + 1, attempt)
    else if attempt == retryMax then Report(Dropped, attempt + 1, attempt)
    else if cancelled(attempt) then Report(Cancelled, attempt + 1, attempt)
    else Attempts(ok, cancelled, retryMax, attempt + 1)
  }

  method PublishWithRetry(ok: nat -> bool, cancelled: nat -> bool, retryMax: int, interval: int)
    returns (r: Report, elapsed: nat)
    ensures r == Attempts(ok, cancelled, retryMax, 0)
    ensures elapsed == Elapsed(interval, r.waits)
  {
    var backoff := interval;
    var attempt := 0;
    elapsed := 0;
    ghost var waits := 0;
    while attempt <= retryMax
      invariant waits == if attempt > retryMax && attempt > 0 then attempt - 1 else attempt
      invariant attempt <= retryMax ==> Attempts(ok, cancelled, retryMax, 0) == Attempts(ok, cancelled, retryMax, attempt)
      invariant attempt > retryMax ==> Attempts(ok, cancelled, retryMax, 0) == Report(Dropped, attempt, waits)
      invariant backoff == Backoff(interval, waits) && elapsed == Elapsed(interval, waits)
      decreases retryMax - attempt
    {
      if !ok(attempt) {
        if attempt < retryMax {
          if cancelled(attempt) {
            return Report(Cancelled, attempt + 1, attempt), elapsed;
          }
          elapsed := elapsed + Waited(backoff);
          backoff := Wrap(backoff * 2);
          waits := waits + 1;
        }
        attempt := attempt + 1;
        continue;
      }
      return Report(Delivered, attempt + 1, attempt), elapsed;
    }
    r := Report(Dropped, attempt, if attempt == 0 then 0 else attempt - 1);
  }

  // ---- what the caller can count on ---------------------------------------------------

  ghost predicate AllFail(ok: nat -> bool, upTo: int) {
    forall j: nat :: j < upTo ==> !ok(j)
  }

  ghost predicate NoneCancelled(cancelled: nat -> bool, upTo: int) {
    forall j: nat :: j < upTo ==> !cancelled(j)
  }

  /** Uneventful attempts can be skipped over. */
  lemma {:induction false} SkipTo(ok: nat -> bool, cancelled: nat -> bool, retryMax: int, k: nat)
    requires k <= retryMax && AllFail(ok, k) && NoneCancelled(cancelled, k)
    ensures Attempts(ok, cancelled, retryMax, 0) == Attempts(ok, cancelled, retryMax, k)
  {
    if k > 0 {
      SkipTo(ok, cancelled, retryMax, k - 1);
    }
  }

  /** Delivered exactly when some attempt within the limit succeeds before any cancelled wait. */
  lemma DeliveredIff(ok: nat -> bool, cancelled: nat -> bool, retryMax: int)
    ensures var r := Attempts(ok, cancelled, retryMax, 0);
            r.outcome.Delivered? <==>
              exists k: nat :: k <= retryMax && ok(k) && AllFail(ok, k) && NoneCancelled(cancelled, k)
    ensures forall k: nat :: k <= retryMax && ok(k) && AllFail(ok, k) && NoneCancelled(cancelled, k)
              ==> Attempts(ok, cancelled, retryMax, 0) == Report(Delivered, k + 1, k)
  {
    forall k: nat | k <= retryMax && ok(k) && AllFail(ok, k) && NoneCancelled(cancelled, k)
      ensures Attempts(ok, cancelled, retryMax, 0) == Report(Delivered, k + 1, k)
    {
      SkipTo(ok, cancelled, retryMax, k);
    }
    LastCall(ok, cancelled, retryMax, 0);
  }

  /** The final call decides: every earlier one failed and was waited out. */
  lemma {:induction false} LastCall(ok: nat -> bool, cancelled: nat -> bool, retryMax: int, attempt: nat)
    requires AllFail(ok, attempt) && NoneCancelled(cancelled, attempt) && (attempt <= retryMax || attempt == 0)
    ensures var r := Attempts(ok, cancelled, retryMax, attempt);
            && r.calls <= (if retryMax < 0 then 0 else retryMax + 1)
            && AllFail(ok, r.calls - 1) && NoneCancelled(cancelled, r.calls - 1)
            && (r.outcome.Delivered? ==> r.calls > 0 && ok(r.calls - 1) && r.waits == r.calls - 1)
            && (r.outcome.Cancelled? ==> 0 < r.calls <= retryMax && !ok(r.calls - 1) && cancelled(r.calls - 1) && r.waits == r.calls - 1)
            && (r.outcome.Dropped? ==> r.calls == (if retryMax < 0 then 0 else retryMax + 1)
                                       && AllFail(ok, r.calls) && r.waits == if r.calls == 0 then 0 else r.calls - 1)
    decreases if attempt <= retryMax then retryMax - attempt + 1 else 0
  {
    if attempt < retryMax && !ok(attempt) && !cancelled(attempt) {
      LastCall(ok, cancelled, retryMax, attempt + 1);
    }
  }

  /** Exhaustion: every attempt is used, every wait in between is taken, the event is dropped. */
  lemma ExhaustionDrops(ok: nat -> bool, cancelled: nat -> bool, retryMax: nat)
    requires AllFail(ok, retryMax + 1) && NoneCancelled(cancelled, retryMax)
    ensures Attempts(ok, cancelled, retryMax, 0) == Report(Dropped, retryMax + 1, retryMax)
  {
    SkipTo(ok, cancelled, retryMax, retryMax);
  }

  /** Cancellation can only save calls. */
  lemma {:induction false} CancellationNeverAddsACall(ok: nat -> bool, cancelled: nat -> bool, never: nat -> bool, retryMax: int, attempt: nat)
    requires forall j :: !never(j)
    ensures Attempts(ok, cancelled, retryMax, attempt).calls <= Attempts(ok, never, retryMax, attempt).calls
    decreases if attempt <= retryMax then retryMax - attempt + 1 else 0
  {
    if attempt < retryMax && !ok(attempt) {
      CancellationNeverAddsACall(ok, cancelled, never, retryMax, attempt + 1);
      CallsReachAttempt(ok, never, retryMax, attempt + 1);
    }
  }

  lemma {:induction false} CallsReachAttempt(ok: nat -> bool, cancelled: nat -> bool, retryMax: int, attempt: nat)
    ensures Attempts(ok, cancelled, retryMax, attempt).calls >= attempt
    decreases if attempt <= retryMax then retryMax - attempt + 1 else 0
  {
    if attempt < retryMax && !ok(attempt) && !cancelled(attempt) {
      CallsReachAttempt(ok, cancelled, retryMax, attempt + 1);
    }
  }

  lemma {:induction false} BackoffNeverExceeds(interval: int, n: nat)
    requires 0 <= interval < HALF
    ensures Waited(Backoff(interval, n)) <= interval * Pow2(n)
    ensures Backoff(interval, n) == interval * Pow2(n) <==> interval * Pow2(n) < HALF
    ensures Waited(Backoff(interval, n)) == interval * Pow2(n) <==> interval * Pow2(n) < HALF
  {
    if n > 0 {
      BackoffNeverExceeds(interval, n - 1);
      ScaledPow2(interval, n);
      WrapFits(2 * Backoff(interval, n - 1));
    }
  }

  /** The doubling series: interval * (2^waits - 1), term by term. */
  lemma SeriesStep(interval: int, waits: nat)
    requires waits > 0
    ensures interval * (Pow2(waits) - 1) == interval * (Pow2(waits - 1) - 1) + interval * Pow2(waits - 1)
  {
    ScaledPow2(interval, waits);
    assert interval * (Pow2(waits) - 1) == interval * Pow2(waits) - interval;
    assert interval * (Pow2(waits - 1) - 1) == interval * Pow2(waits - 1) - interval;
  }

  /** No run waits longer than the doubling series promises. */
  lemma {:induction false} ElapsedNeverExceeds(interval: int, waits: nat)
    requires 0 <= interval < HALF
    ensures Elapsed(interval, waits) <= interval * (Pow2(waits) - 1)
  {
    if waits > 0 {
      ElapsedNeverExceeds(interval, waits - 1);
      BackoffNeverExceeds(interval, waits - 1);
      SeriesStep(interval, waits);
    }
  }

  /**
   * The total wait is interval * (2^waits - 1) exactly as long as the last wait taken still
   * fits in 64 bits; past that the wrapped waits fall short of it.
   */
  lemma {:induction false} TotalWaitIff(interval: int, waits: nat)
    requires 0 <= interval < 0x8000_0000_0000_0000
    ensures Elapsed(interval, waits) == interval * (Pow2(waits) - 1)
       <==> waits == 0 || interval * Pow2(waits - 1) < 0x8000_0000_0000_0000
  {
    if waits > 0 {
      TotalWaitIff(interval, waits - 1);
      ElapsedNeverExceeds(interval, waits - 1);
      BackoffNeverExceeds(interval, waits - 1);
      SeriesStep(interval, waits);
      if waits > 1 && interval * Pow2(waits - 1) < HALF {
        EarlierFits(interval, waits);
      }
    }
  }

  lemma EarlierFits(interval: int, waits: nat)
    requires 0 <= interval && waits > 1 && interval * Pow2(waits - 1) < HALF
    ensures interval * Pow2(waits - 2) < HALF
  {
    ScaledPow2(interval, waits - 1);
  }
}
