/**
 * The control logic of the `retry(max_attempts)` decorator's wrapper.
 *
 * The wrapped operation is given as `op`, where `op(i)` is the outcome of its
 * i-th invocation (counting from 0).  Sleeping is not performed: the delays
 * the wrapper would sleep between attempts are returned in order.
 */
module RetryDecorator {
  import opened Wrappers

  /**
   * The outcome of one invocation of the wrapped operation: a value, an
   * `Exception` (which the wrapper catches and retries), or a `BaseException`
   * outside `Exception` such as `KeyboardInterrupt` or `asyncio.CancelledError`
   * (which the `except Exception` clause does not catch).
   */
  datatype Attempt<R, E> = Success(value: R) | Failure(error: E) | Abort(error: E)

  /** How the wrapper finishes: it returns (possibly `None`) or re-raises. */
  datatype Final<R, E> = Returned(value: Option<R>) | Raised(error: E)

  /** The whole behaviour of one call of the wrapper. */
  datatype Run<R, E> = Run(final: Final<R, E>, calls: nat, delays: seq<nat>)

  /** `retry()` without an argument, and `MAX_RETRIES` used by `fetch_remote_data`. */
  const DefaultMaxAttempts: int := 3

  /** `2 ** attempt`. */
  function Pow2(n: nat): nat
  {
    if n == 0 then 1 else 2 * Pow2(n - 1)
  }

  /** The backoff schedule `2**0, 2**1, ..., 2**(n-1)`. */
  function Backoff(n: nat): (s: seq<nat>)
    // the first wait is one unit, and every later wait doubles the one before
    ensures |s| == n
    ensures n > 0 ==> s[0] == 1
    ensures forall i :: 0 < i < n ==> s[i] == 2 * s[i - 1]
  {
    seq(n, i requires 0 <= i => Pow2(i))
  }

  /** The wrapper's loop from iteration `attempt` of `range(maxAttempts)` onward. */
  function RetryFrom<R, E>(op: nat -> Attempt<R, E>, maxAttempts: int, attempt: nat): (r: Run<R, E>)
    decreases maxAttempts - attempt
    // leaving the loop without returning or raising only happens when it never runs
    ensures attempt >= maxAttempts ==> r == Run(Returned(None), 0, [])
    ensures attempt < maxAttempts ==> 1 <= r.calls <= maxAttempts - attempt
    // one delay after every failed invocation that is not the last one
    ensures attempt < maxAttempts ==> |r.delays| == r.calls - 1
    ensures forall i :: 0 <= i < |r.delays| ==> r.delays[i] == Pow2(attempt + i)
    // every invocation before the last one raised a retried `Exception`
    ensures forall j :: attempt <= j < attempt + r.calls - 1 ==> op(j).Failure?
    // the last invocation decides the result; an `Exception` escapes only once the attempts are used up
    ensures attempt < maxAttempts ==>
      match op(attempt + r.calls - 1)
      case Success(v) => r.final == Returned(Some(v))
      case Failure(e) => r.final == Raised(e) && r.calls == maxAttempts - attempt
      case Abort(e) => r.final == Raised(e)
  {
    if attempt >= maxAttempts then Run(Returned(None), 0, [])
    else
      match op(attempt)
      case Success(v) => Run(Returned(Some(v)), 1, [])
      case Abort(e) => Run(Raised(e), 1, [])
      case Failure(e) =>
        if attempt == maxAttempts - 1 then Run(Raised(e), 1, [])
        else
          var rest := RetryFrom(op, maxAttempts, attempt + 1);
          Run(rest.final, rest.calls + 1, [Pow2(attempt)] + rest.delays)
  }

  /** One call of the decorated function. */
  function Retry<R, E>(op: nat -> Attempt<R, E>, maxAttempts: int): (r: Run<R, E>)
    ensures maxAttempts >= 1 ==> 1 <= r.calls <= maxAttempts
    ensures r.delays == Backoff(if r.calls == 0 then 0 else r.calls - 1)
  {
    RetryFrom(op, maxAttempts, 0)
  }

  /** If every invocation fails, the operation runs exactly `maxAttempts` times and the last failure escapes. */
  lemma AllFail<R, E>(op: nat -> Attempt<R, E>, maxAttempts: int)
    requires maxAttempts >= 1
    requires forall j :: 0 <= j < maxAttempts ==> op(j).Failure?
    ensures Retry(op, maxAttempts).calls == maxAttempts
    ensures Retry(op, maxAttempts).final == Raised(op(maxAttempts - 1).error)
    ensures Retry(op, maxAttempts).delays == Backoff(maxAttempts - 1)
  {
    var r := Retry(op, maxAttempts);
    assert op(r.calls - 1).Failure?;
  }

  /** The first success at invocation `k` (counting from 0) ends the loop after `k + 1` calls with that value. */
  lemma FirstSuccess<R, E>(op: nat -> Attempt<R, E>, maxAttempts: int, k: nat)
    requires k < maxAttempts
    requires op(k).Success?
    requires forall j :: 0 <= j < k ==> op(j).Failure?
    ensures Retry(op, maxAttempts).calls == k + 1
    ensures Retry(op, maxAttempts).final == Returned(Some(op(k).value))
    ensures Retry(op, maxAttempts).delays == Backoff(k)
  {
    var r := Retry(op, maxAttempts);
    var last := r.calls - 1;
    assert op(last).Success? || last == maxAttempts - 1;
    assert last == k;
  }

  /** With `maxAttempts <= 0` the loop body never runs and the wrapper returns `None`. */
  lemma NeverInvoked<R, E>(op: nat -> Attempt<R, E>, maxAttempts: int)
    requires maxAttempts <= 0
    ensures Retry(op, maxAttempts) == Run(Returned(None), 0, [])
  {
  }

  /**
   * A `BaseException` outside `Exception` at invocation k escapes at once:
   * no further invocation and no sleep after it, even with attempts left.
   */
  lemma AbortStopsAtOnce<R, E>(op: nat -> Attempt<R, E>, maxAttempts: int, k: nat)
    requires k < maxAttempts
    requires op(k).Abort?
    requires forall j :: 0 <= j < k ==> op(j).Failure?
    ensures Retry(op, maxAttempts).calls == k + 1
    ensures Retry(op, maxAttempts).final == Raised(op(k).error)
    ensures Retry(op, maxAttempts).delays == Backoff(k)
  {
    var r := Retry(op, maxAttempts);
    var last := r.calls - 1;
    assert !op(last).Failure? || last == maxAttempts - 1;
    assert last == k;
  }

  /** A wrapper that returns `None` with `maxAttempts >= 1` did so because the operation itself returned `None`. */
  lemma ReturnsNoneOnlyWhenNeverRun<R, E>(op: nat -> Attempt<R, E>, maxAttempts: int)
    requires Retry(op, maxAttempts).final == Returned(None)
    ensures maxAttempts <= 0
  {
  }

  /** The sum of a sequence of delays. */
  function Sum(s: seq<nat>): nat
  {
    if |s| == 0 then 0 else s[0] + Sum(s[1..])
  }

  /** The first `n` backoff delays add up to `2**n - 1`; a call with `n + 1` invocations sleeps that long. */
  lemma {:induction false} TotalBackoff(n: nat)
    ensures Sum(Backoff(n)) + 1 == Pow2(n)
  {
    if n > 0 {
      var b := Backoff(n);
      SumSnoc(Backoff(n - 1), Pow2(n - 1));
      assert b == Backoff(n - 1) + [Pow2(n - 1)];
      TotalBackoff(n - 1);
    }
  }

  lemma {:induction false} SumSnoc(s: seq<nat>, x: nat)
    ensures Sum(s + [x]) == Sum(s) + x
  {
    if |s| > 0 {
      assert (s + [x])[1..] == s[1..] + [x];
      SumSnoc(s[1..], x);
    } else {
      assert s + [x] == [x];
    }
  }
}
