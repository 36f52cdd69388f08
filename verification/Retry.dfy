/** Repeating a request that failed for a reason that will pass. */
module Retrying {
  import opened Text
  import opened Failures

  /** A span of time in nanoseconds. */
  type Duration = nat

  const SECOND: Duration := 1_000_000_000

  /** The longest span the standard library can hold. */
  const DURATION_MAX: Duration := 0xffff_ffff_ffff_ffff * SECOND + 999_999_999

  const U32_MAX: nat := 0xffff_ffff

  /** How a command may be repeated and, for a heavy one, where it goes. */
  datatype Repeatable = Freely | WithMutationId | Never | Heavy

  datatype RetryPolicy = RetryPolicy(attempts: nat, initialBackoff: Duration, maxBackoff: Duration)
  {
    predicate Valid() {
      1 <= attempts <= U32_MAX && initialBackoff <= DURATION_MAX && maxBackoff <= DURATION_MAX
    }
  }

  /** `RetryPolicy::new`, which allows at least one attempt. */
  function NewPolicy(attempts: nat, initialBackoff: Duration, maxBackoff: Duration): (r: RetryPolicy)
    requires attempts <= U32_MAX && initialBackoff <= DURATION_MAX && maxBackoff <= DURATION_MAX
    ensures r.Valid() && r.attempts >= 1 && (attempts > 0 ==> r.attempts == attempts) && r.attempts <= attempts + 1
    ensures r.initialBackoff == initialBackoff && r.maxBackoff == maxBackoff
  {
    RetryPolicy(if attempts == 0 then 1 else attempts, initialBackoff, maxBackoff)
  }

  function Pow2(n: nat): (r: nat)
    ensures r >= 1
  {
    if n == 0 then 1 else 2 * Pow2(n - 1)
  }

  /** `checked_shl` of one: none from a shift of 32 on, whatever the result would be. */
  function CheckedShl(shift: nat): Option<nat> {
    if shift < 32 then Some(Pow2(shift)) else None
  }

  /** `checked_mul` of a duration. */
  function CheckedMul(wait: Duration, factor: nat): Option<Duration> {
    if wait * factor <= DURATION_MAX then Some(wait * factor) else None
  }

  /** How long to wait after the `attempt`-th failure, counting from one. */
  function Backoff(policy: RetryPolicy, attempt: nat): Duration
    requires policy.Valid() && attempt >= 1
  {
    var factor := match CheckedShl(attempt - 1) case Some(f) => f case None => U32_MAX;
    var doubled := match CheckedMul(policy.initialBackoff, factor) case Some(d) => d case None => policy.maxBackoff;
    Min(doubled, policy.maxBackoff)
  }

  lemma {:induction false} Pow2Grows(a: nat, b: nat)
    requires a <= b
    ensures Pow2(a) <= Pow2(b)
  {
    if a < b { Pow2Grows(a, b - 1); }
  }

  lemma Pow2Is32()
    ensures Pow2(32) == U32_MAX + 1
  {
    assert Pow2(4) == 2 * Pow2(3) == 16;
    hide Pow2;
    Pow2Adds(4, 4);
    Pow2Adds(8, 8);
    Pow2Adds(16, 16);
  }

  lemma {:induction false} Pow2Adds(a: nat, b: nat)
    ensures Pow2(a + b) == Pow2(a) * Pow2(b)
  {
    if a > 0 {
      Pow2Adds(a - 1, b);
      Regroup(Pow2(a - 1), Pow2(b));
    }
  }

  lemma Regroup(x: nat, y: nat)
    ensures 2 * (x * y) == (2 * x) * y
  {
  }

  /** The factor the wait is multiplied by before it is capped. */
  function Factor(attempt: nat): nat
    requires attempt >= 1
  {
    if attempt <= 32 then Pow2(attempt - 1) else U32_MAX
  }

  /** Neither overflow is ever visible: the wait is the capped product. */
  lemma BackoffIsCappedProduct(policy: RetryPolicy, attempt: nat)
    requires policy.Valid() && attempt >= 1
    ensures Backoff(policy, attempt) == Min(policy.initialBackoff * Factor(attempt), policy.maxBackoff)
  {
  }

  /** The wait doubles from the initial one up to the cap exactly as far as 32 attempts go; past
      that the factor stays at the largest 32-bit number, which shows only while even that does
      not reach the cap. */
  lemma BackoffDoubles(policy: RetryPolicy, attempt: nat)
    requires policy.Valid() && attempt >= 1
    ensures Backoff(policy, attempt) == Min(policy.initialBackoff * Pow2(attempt - 1), policy.maxBackoff)
      <==> attempt <= 32 || policy.initialBackoff == 0 || policy.initialBackoff * U32_MAX >= policy.maxBackoff
  {
    BackoffIsCappedProduct(policy, attempt);
    if attempt > 32 {
      Pow2Is32();
      Pow2Grows(32, attempt - 1);
      var d, p := policy.initialBackoff, Pow2(attempt - 1);
      Multiply(d, U32_MAX, p);
    }
  }

  /** At the 33rd failure the wait is one nanosecond short of doubling. */
  lemma The33rdWaitIsNotDoubled()
    ensures var policy := RetryPolicy(40, 1, DURATION_MAX);
      policy.Valid() && Backoff(policy, 33) == U32_MAX && U32_MAX + 1 == Pow2(32) <= policy.maxBackoff
  {
    Pow2Is32();
    BackoffIsCappedProduct(RetryPolicy(40, 1, DURATION_MAX), 33);
  }

  lemma Multiply(d: nat, a: nat, b: nat)
    requires a < b
    ensures d * a <= d * b
    ensures d > 0 ==> d * a < d * b
  {
    assert d * b == d * a + d * (b - a);
  }

  /** A later failure never waits less, and no failure waits more than the cap. */
  lemma BackoffNeverShrinks(policy: RetryPolicy, attempt: nat)
    requires policy.Valid() && attempt >= 1
    ensures Backoff(policy, attempt) <= Backoff(policy, attempt + 1) <= policy.maxBackoff
  {
    BackoffIsCappedProduct(policy, attempt);
    BackoffIsCappedProduct(policy, attempt + 1);
    assert Factor(attempt) <= Factor(attempt + 1) by {
      Pow2Is32();
      Pow2Grows(attempt - 1, attempt);
    }
    var d := policy.initialBackoff;
    if Factor(attempt) < Factor(attempt + 1) { Multiply(d, Factor(attempt), Factor(attempt + 1)); }
  }

  /** The waits before attempts two to `attempts`. */
  function Waits(policy: RetryPolicy, attempts: nat): (r: seq<Duration>)
    requires policy.Valid() && attempts >= 1
    ensures |r| == attempts - 1
  {
    seq(attempts - 1, i requires 0 <= i < attempts - 1 => Backoff(policy, i + 1))
  }

  function Sum(waits: seq<Duration>): Duration {
    if waits == [] then 0 else Sum(waits[..|waits| - 1]) + waits[|waits| - 1]
  }

  lemma WaitsSnoc(policy: RetryPolicy, attempts: nat)
    requires policy.Valid() && attempts >= 1
    ensures Waits(policy, attempts + 1) == Waits(policy, attempts) + [Backoff(policy, attempts)]
    ensures Sum(Waits(policy, attempts + 1)) == Sum(Waits(policy, attempts)) + Backoff(policy, attempts)
  {
    hide Backoff;
    assert Waits(policy, attempts + 1)[..attempts - 1] == Waits(policy, attempts);
  }

  /** However a run goes, it sleeps no more than the cap once per retry. */
  lemma {:induction false} SleepIsBounded(policy: RetryPolicy, attempts: nat)
    requires policy.Valid() && attempts >= 1
    ensures Sum(Waits(policy, attempts)) <= (attempts - 1) * policy.maxBackoff
  {
    hide Backoff, Waits;
    if attempts > 1 {
      hide Sum;
      SleepIsBounded(policy, attempts - 1);
      BackoffNeverShrinks(policy, attempts - 1);
      WaitsSnoc(policy, attempts - 1);
      OnceMore(attempts - 1, policy.maxBackoff);
    } else {
      assert Waits(policy, 1) == [];
    }
  }

  lemma OnceMore(n: nat, cap: nat)
    requires n > 0
    ensures (n - 1) * cap + cap == n * cap
  {
  }

  /** How often one command may be sent. */
  function Allowed(policy: RetryPolicy, repeatable: Repeatable): nat {
    if repeatable in {Never, Heavy} then 1 else policy.attempts
  }
}
