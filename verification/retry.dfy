/** The retry policy of `callWithRetry` (services/geminiService.ts). The
    wrapped operation is external; it is given here as the outcome of each of
    its calls in turn, `op(0)`, `op(1)`, ... The waits are recorded rather than
    slept. */
module Retry {
  import opened Wrappers

  /** A thrown error: its `status` property (absent on plain `Error`s) and
      whatever else it carries, kept opaque. */
  datatype Failure = Failure(status: Option<int>, message: string)

  /** What one call of the operation does. */
  datatype Outcome<T> = Resolved(value: T) | Threw(error: Failure)

  /** How the whole call ends: the value it resolves to, or the error it
      rethrows, after `attempts` calls and the listed waits (milliseconds). */
  datatype Run<T> = Run(outcome: Outcome<T>, attempts: nat, delays: seq<int>)

  /** Rate-limited or unavailable: the only failures worth another try. */
  predicate Transient(e: Failure) {
    e.status == Some(429) || e.status == Some(503)
  }

  function Pow2(k: nat): (p: nat)
    ensures p >= 1
  {
    if k == 0 then 1 else 2 * Pow2(k - 1)
  }

  lemma Doubled(delay: int, k: nat)
    requires k >= 1
    ensures (delay * 2) * Pow2(k - 1) == delay * Pow2(k)
  {
    var p := Pow2(k - 1);
    assert Pow2(k) == 2 * p;
    assert (delay * 2) * p == delay * (2 * p);
  }

  /** The calls from `op(first)` on, with `retries` retries left and
      `delay` as the next wait. */
  function Attempt<T>(op: nat -> Outcome<T>, first: nat, retries: nat, delay: int): (run: Run<T>)
    ensures 1 <= run.attempts <= retries + 1
    ensures |run.delays| == run.attempts - 1
    ensures forall k :: 0 <= k < |run.delays| ==> run.delays[k] == delay * Pow2(k)
    ensures run.outcome == op(first + run.attempts - 1)
    ensures forall k :: first <= k < first + run.attempts - 1 ==> op(k).Threw? && Transient(op(k).error)
    ensures run.outcome.Threw? && run.attempts <= retries ==> !Transient(run.outcome.error)
    decreases retries
  {
    match op(first)
    case Resolved(v) => Run(Resolved(v), 1, [])
    case Threw(e) =>
      if retries > 0 && (e.status == Some(429) || e.status == Some(503)) then
        var rest := Attempt(op, first + 1, retries - 1, delay * 2);
        var delays := [delay] + rest.delays;
        assert forall k :: 0 <= k < |delays| ==> delays[k] == delay * Pow2(k) by {
          forall k | 1 <= k < |delays|
            ensures delays[k] == delay * Pow2(k)
          {
            Doubled(delay, k);
          }
        }
        Run(rest.outcome, rest.attempts + 1, delays)
      else
        Run(Threw(e), 1, [])
  }

  /** `callWithRetry(operation, retries, baseDelay)`: at most `retries + 1`
      calls; every call but the last threw a transient error; the last call's
      value or error is passed on unchanged; the last error is rethrown either
      because it is not transient or because the retries ran out; the waits
      double from `baseDelay`. */
  function CallWithRetry<T>(op: nat -> Outcome<T>, retries: nat, baseDelay: int): (run: Run<T>)
    ensures 1 <= run.attempts <= retries + 1
    ensures run.outcome == op(run.attempts - 1)
    ensures forall k :: 0 <= k < run.attempts - 1 ==> op(k).Threw? && Transient(op(k).error)
    ensures run.outcome.Threw? && run.attempts <= retries ==> !Transient(run.outcome.error)
    ensures |run.delays| == run.attempts - 1
    ensures forall k :: 0 <= k < |run.delays| ==> run.delays[k] == baseDelay * Pow2(k)
  {
    Attempt(op, 0, retries, baseDelay)
  }

  /** With the defaults every caller uses (one retry, 2000 ms), the operation
      runs at most twice, and a second run follows a single 2-second wait
      after a 429 or 503. */
  lemma DefaultPolicy<T>(op: nat -> Outcome<T>)
    ensures var run := CallWithRetry(op, 1, 2000);
      && run.attempts <= 2
      && (run.attempts == 2 <==> op(0).Threw? && Transient(op(0).error))
      && (run.attempts == 2 ==> run.delays == [2000])
  {
    var run := CallWithRetry(op, 1, 2000);
    if run.attempts == 2 {
      assert run.delays[0] == 2000 * Pow2(0);
    }
  }
}
