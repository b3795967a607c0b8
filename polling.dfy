/** `wait_for_file`: poll for a file every `check_interval` seconds until it
    exists or `timeout` seconds have been spent sleeping, then warn if it is
    still missing. The file system is an oracle: `existsAt(q)` is the answer
    of the q-th `os.path.exists` call of one wait, counted from zero. Each
    evaluation of the loop condition asks once (the existence test comes
    first in the `and`), and the check after the loop asks once more. */
module Polling {

  const DefaultTimeout := 300
  const DefaultInterval := 5

  /** The number of positive steps of size `d` needed to reach `t`. */
  function CeilDiv(t: int, d: int): (n: nat)
    requires d > 0
    ensures n * d >= t
    ensures n > 0 ==> (n - 1) * d < t
  {
    if t <= 0 then 0
    else
      var q := (t + d - 1) / d;
      assert q * d + (t + d - 1) % d == t + d - 1;
      q
  }

  /** Multiplying by a non-negative factor keeps the order. */
  lemma {:induction false} MulMonotone(a: int, b: int, d: int)
    requires 0 <= a <= b && d >= 0
    ensures a * d <= b * d
    decreases b - a
  {
    if a < b {
      MulMonotone(a, b - 1, d);
      assert b * d == (b - 1) * d + d;
    }
  }

  /** If the last of `n` sleeps started below `t`, then `n` sleeps of `d`
      seconds are at most ceil(t / d). */
  lemma IterationBound(n: nat, t: int, d: int)
    requires d > 0
    requires n > 0 ==> (n - 1) * d < t
    ensures n <= CeilDiv(t, d)
  {
    var c := CeilDiv(t, d);
    if c < n {
      MulMonotone(c, n - 1, d);
    }
  }

  /** With the script's defaults a wait sleeps at most 60 times. */
  lemma DefaultBound()
    ensures CeilDiv(DefaultTimeout, DefaultInterval) == 60
  {
  }

  /** The polling loop. It stops at the first poll that finds the file or
      that comes after `timeout` seconds of sleep, so it terminates whenever
      `interval` is positive; `warned` is the only failure signal. */
  method WaitForFile(existsAt: nat -> bool, timeout: int, interval: int)
    returns (sleeps: nat, totalTime: int, warned: bool)
    requires interval > 0
    ensures totalTime == sleeps * interval
    ensures existsAt(sleeps) || totalTime >= timeout
    ensures forall k :: 0 <= k < sleeps ==> !existsAt(k) && k * interval < timeout
    ensures sleeps > 0 ==> totalTime < timeout + interval
    ensures sleeps <= CeilDiv(timeout, interval)
    ensures warned <==> !existsAt(sleeps + 1)
  {
    totalTime := 0;
    sleeps := 0;
    while !existsAt(sleeps) && totalTime < timeout
      invariant totalTime == sleeps * interval
      invariant forall k :: 0 <= k < sleeps ==> !existsAt(k) && k * interval < timeout
      invariant sleeps > 0 ==> totalTime < timeout + interval
      decreases timeout - totalTime
    {
      // time.sleep(check_interval): an abstract step. The script calls
      // `time.sleep` without importing `time`, which would raise NameError
      // on the first sleep; the model treats the sleep as if it happened.
      totalTime := totalTime + interval;
      sleeps := sleeps + 1;
    }
    IterationBound(sleeps, timeout, interval);
    warned := !existsAt(sleeps + 1);
  }
}
