/** The `retry_on_error` decorator of api.py (lines 39-56). */
module Retry {

  /** What one call of the wrapped function does: return a value, raise an error the
      decorator catches (`ValueError`, of which `json.JSONDecodeError` is a subclass),
      or raise any other exception. */
  datatype Outcome<+T> = Ok(value: T) | Recoverable(message: string) | Other(message: string)

  /** The decorator's default pause (line 39); the call at line 87 sets only the
      number of attempts. */
  const DefaultDelaySeconds: nat := 1

  /** The wrapper that `retry_on_error(maxAttempts, delaySeconds)` puts around a function
      whose `k`-th call (counting from 0) has the outcome `call(k)`. It returns what the
      caller sees (the value, or the exception that escapes), the number of calls made,
      the number of `time.sleep` calls and the seconds spent in them. */
  method RetryOnError<T>(maxAttempts: int, delaySeconds: nat, call: nat -> Outcome<T>)
    returns (r: Outcome<T>, calls: nat, sleeps: nat, slept: nat)
    ensures 1 <= calls
    ensures maxAttempts >= 1 ==> calls <= maxAttempts
    ensures maxAttempts <= 0 ==> calls == 1
    ensures r == call(calls - 1)
    ensures forall k :: 0 <= k < calls - 1 ==> call(k).Recoverable?
    ensures maxAttempts >= 1 && r.Recoverable? ==> calls == maxAttempts
    ensures sleeps == calls - 1
    ensures slept == sleeps * delaySeconds
  {
    var attempts := 0;
    calls, sleeps, slept := 0, 0, 0;
    while attempts < maxAttempts
      invariant 0 <= attempts == calls
      invariant maxAttempts >= 1 ==> attempts < maxAttempts
      invariant maxAttempts <= 0 ==> attempts == 0
      invariant forall k :: 0 <= k < calls ==> call(k).Recoverable?
      invariant sleeps == calls
      invariant slept == sleeps * delaySeconds
      decreases maxAttempts - attempts
    {
      r := call(calls);
      calls := calls + 1;
      if !r.Recoverable? {
        // the value is returned, or the uncaught exception propagates
        return;
      }
      attempts := attempts + 1;
      if attempts == maxAttempts {
        // `raise e`: the last error escapes
        return;
      }
      sleeps := sleeps + 1;
      slept := slept + delaySeconds;
    }
    // reached only when the loop never runs: the unguarded call of line 52
    r := call(calls);
    calls := calls + 1;
  }
}
