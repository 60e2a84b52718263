/** `openAiWithExponentialBackoff` (index.ts): call the completion endpoint,
    and after a failure retry up to five times, waiting longer each time.

    The endpoint and the clock are parameters: `call(n)` is what the n-th
    call (from 0) does, and `random(n)` is the `Math.random()` drawn for the
    wait after the n-th failure. A response body that carries an `error` key
    is thrown by the function itself; it reaches this model as a `Failed`
    outcome whose value is not an `Error` instance. */
module Backoff {
  import opened Results

  const MaxRetries := 5
  const BaseDelayMs := 250

  /** The jitter added to every wait after the second failure is below this. */
  const JitterMs := 100

  /** What the `catch` block sees of a thrown value: whether it is an
      `Error`, whether its `error` property is truthy, and its `status`. */
  datatype Thrown = Thrown(isErrorInstance: bool, hasErrorField: bool, status: Option<int>)

  datatype CallOutcome<R> = Completed(response: R) | Failed(thrown: Thrown)

  /** `err.status` is truthy: present and not 0. */
  predicate HasStatus(t: Thrown) {
    t.status.Some? && t.status.value != 0
  }

  /** The statuses worth retrying: 429 and every 5xx. */
  predicate RetryableStatus(status: int) {
    status == 429 || (500 <= status <= 599)
  }

  /** Whether a failure is retried when `attempt` failures have been counted
      so far, this one included: it must be an `Error` or carry an `error`
      property, the retries must not be used up, and a status, if any, must
      be a retryable one. */
  function RetriedAfter(t: Thrown, attempt: nat): (b: bool)
    ensures !t.isErrorInstance && !t.hasErrorField ==> !b
    ensures attempt > MaxRetries ==> !b
    ensures HasStatus(t) && !(t.status.value == 429 || 500 <= t.status.value <= 599) ==> !b
    ensures (t.isErrorInstance || t.hasErrorField) && attempt <= MaxRetries && !HasStatus(t) ==> b
    ensures (t.isErrorInstance || t.hasErrorField) && attempt <= MaxRetries && t.status == Some(429) ==> b
    ensures (t.isErrorInstance || t.hasErrorField) && attempt <= MaxRetries && HasStatus(t) && 500 <= t.status.value <= 599 ==> b
  {
    && (t.isErrorInstance || t.hasErrorField)
    && attempt <= MaxRetries
    && (!HasStatus(t) || RetryableStatus(t.status.value))
  }

  function Pow2(n: nat): (r: nat)
    ensures r >= 1
  {
    if n == 0 then 1 else 2 * Pow2(n - 1)
  }

  /** `attempt === 1 ? 0 : baseDelayMs * 2 ** (attempt - 1) + Math.random() * 100`. */
  function BackoffDelay(attempt: nat, random: real): (d: real)
    requires 1 <= attempt
    requires 0.0 <= random < 1.0
    ensures attempt == 1 ==> d == 0.0
    ensures attempt >= 2 ==>
              (BaseDelayMs * Pow2(attempt - 1)) as real <= d < (BaseDelayMs * Pow2(attempt - 1) + JitterMs) as real
  {
    if attempt == 1 then 0.0
    else (BaseDelayMs * Pow2(attempt - 1)) as real + random * (JitterMs as real)
  }

  /** Each wait is longer than the one before, whatever the jitter. */
  lemma BackoffDelayGrows(attempt: nat, r1: real, r2: real)
    requires 1 <= attempt
    requires 0.0 <= r1 < 1.0 && 0.0 <= r2 < 1.0
    ensures BackoffDelay(attempt, r1) < BackoffDelay(attempt + 1, r2)
  {
  }

  function Sum(xs: seq<real>): real {
    if |xs| == 0 then 0.0 else Sum(xs[..|xs| - 1]) + xs[|xs| - 1]
  }

  /** The most the waits before retry `attempt` can add up to:
      the sum over 2 <= a <= attempt of 250 * 2^(a-1) + 100. */
  function WaitCeiling(attempt: nat): real
    requires 1 <= attempt
  {
    if attempt == 1 then 0.0
    else WaitCeiling(attempt - 1) + (BaseDelayMs * Pow2(attempt - 1) + JitterMs) as real
  }

  /** The retry loop. It returns the outcome, the number of calls made and
      the waits between them. */
  method CallWithBackoff<R>(call: nat -> CallOutcome<R>, random: nat -> real)
    returns (result: Result<R, Thrown>, calls: nat, waits: seq<real>)
    requires forall n :: 0.0 <= random(n) < 1.0
    ensures 1 <= calls <= MaxRetries + 1
    ensures |waits| == calls - 1
    ensures forall k :: 0 <= k < calls - 1 ==> call(k).Failed? && RetriedAfter(call(k).thrown, k + 1)
    ensures result.Success? <==> call(calls - 1).Completed?
    ensures result.Success? ==> result.value == call(calls - 1).response
    ensures result.Failure? ==>
              call(calls - 1) == Failed(result.error) && !RetriedAfter(result.error, calls)
    ensures 0 < |waits| ==> waits[0] == 0.0
    ensures forall k :: 1 <= k < |waits| ==>
              (BaseDelayMs * Pow2(k)) as real <= waits[k] < (BaseDelayMs * Pow2(k) + JitterMs) as real
  {
    var attempt := 0;
    waits := [];
    while true
      invariant 0 <= attempt <= MaxRetries
      invariant |waits| == attempt
      invariant forall k :: 0 <= k < attempt ==> call(k).Failed? && RetriedAfter(call(k).thrown, k + 1)
      invariant 0 < |waits| ==> waits[0] == 0.0
      invariant forall k :: 1 <= k < |waits| ==>
                  (BaseDelayMs * Pow2(k)) as real <= waits[k] < (BaseDelayMs * Pow2(k) + JitterMs) as real
      decreases MaxRetries - attempt
    {
      calls := attempt + 1;
      match call(attempt)
      case Completed(response) =>
        result := Success(response);
        return;
      case Failed(thrown) =>
        if !thrown.isErrorInstance && !thrown.hasErrorField {
          result := Failure(thrown);
          return;
        }
        attempt := attempt + 1;
        if attempt > MaxRetries {
          result := Failure(thrown);
          return;
        }
        if HasStatus(thrown) && !RetryableStatus(thrown.status.value) {
          result := Failure(thrown);
          return;
        }
        var delay := BackoffDelay(attempt, random(attempt - 1));
        assert (waits + [delay])[..|waits|] == waits;
        waits := waits + [delay];
    }
  }

  /** Waits within the bounds `CallWithBackoff` promises, at most five of
      them, add up to less than 7.9 seconds: 0 + 600 + 1100 + 2100 + 4100 at
      the very most. */
  lemma WaitsTotalBound(waits: seq<real>)
    requires |waits| <= MaxRetries
    requires 0 < |waits| ==> waits[0] == 0.0
    requires forall k :: 1 <= k < |waits| ==>
               (BaseDelayMs * Pow2(k)) as real <= waits[k] < (BaseDelayMs * Pow2(k) + JitterMs) as real
    ensures Sum(waits) < 7900.0
  {
    if |waits| >= 2 {
      WaitsBelowCeiling(waits);
      CeilingGrows(|waits|);
    } else if |waits| == 1 {
      assert waits[..0] == [];
    }
  }

  lemma {:induction false} WaitsBelowCeiling(waits: seq<real>)
    requires 2 <= |waits|
    requires waits[0] == 0.0
    requires forall k :: 1 <= k < |waits| ==>
               (BaseDelayMs * Pow2(k)) as real <= waits[k] < (BaseDelayMs * Pow2(k) + JitterMs) as real
    ensures Sum(waits) < WaitCeiling(|waits|)
  {
    var n := |waits|;
    var front := waits[..n - 1];
    assert Sum(waits) == Sum(front) + waits[n - 1];
    if n == 2 {
      assert front[..0] == [];
      assert Sum(front) == 0.0;
    } else {
      WaitsBelowCeiling(front);
    }
  }

  lemma CeilingGrows(attempt: nat)
    requires 1 <= attempt <= MaxRetries
    ensures 1 < attempt ==> WaitCeiling(attempt - 1) < WaitCeiling(attempt)
    ensures WaitCeiling(attempt) <= WaitCeiling(MaxRetries) == 7900.0
    decreases MaxRetries - attempt
  {
  }
}
