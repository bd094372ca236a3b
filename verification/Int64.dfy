// Signed 64-bit durations and doubling, shared by the two backoff loops.
module Int64 {
  const HALF := 0x8000_0000_0000_0000
  const WHOLE := 0x1_0000_0000_0000_0000

  /** Two's complement wrap-around. */
  function Wrap(x: int): int {
    (x + HALF) % WHOLE - HALF
  }

  predicate Fits(x: int) {
    -HALF <= x < HALF
  }

  lemma WrapFits(x: int)
    ensures Fits(Wrap(x)) && (x - Wrap(x)) % WHOLE == 0
    ensures Fits(x) ==> Wrap(x) == x
    ensures HALF <= x < WHOLE ==> Wrap(x) < 0
  {
  }

  function Pow2(n: nat): nat {
    if n == 0 then 1 else 2 * Pow2(n - 1)
  }

  lemma {:induction false} Pow2Grows(n: nat)
    ensures Pow2(n) > n
  {
    if n > 0 {
      Pow2Grows(n - 1);
    }
  }

  lemma ScaledPow2(x: int, n: nat)
    requires n > 0
    ensures x * Pow2(n) == 2 * (x * Pow2(n - 1))
  {
  }

  lemma {:induction false} Pow2Monotone(m: nat, n: nat)
    requires m <= n
    ensures Pow2(m) <= Pow2(n)
  {
    if m < n {
      Pow2Monotone(m, n - 1);
    }
  }
}
