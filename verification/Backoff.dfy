/** The reconnect delay: a clamped base, doubled per failed attempt up to a cap, with up to 20% jitter. */
module Backoff {
  import opened Bytes

  const RETRY_MIN_MS := 1000
  const RETRY_MAX_MS := 300000
  const MIN_DELAY_MS := 500
  const MAX_BACKOFF_SHIFT := 8
  const UINT32 := 0x1_0000_0000
  const INT32_MAX := 0x7fff_ffff
  const INT64_MAX := 0x7fff_ffff_ffff_ffff

  function Min(a: int, b: int): int { if a < b then a else b }
  function Max(a: int, b: int): int { if a > b then a else b }

  function Power2(n: nat): nat { if n == 0 then 1 else 2 * Power2(n - 1) }

  /** Division as C++ does it: towards zero. */
  function TruncDiv(a: int, b: int): int
    requires b > 0
  {
    if a >= 0 then a / b else -(-a / b)
  }

  /** The delay before jitter after a number of failures in a row. */
  function BaseDelay(retryMS: int, failures: nat): int {
    var base, shift := Max(RETRY_MIN_MS, Min(retryMS, RETRY_MAX_MS)), Min(Max(failures - 1, 0), MAX_BACKOFF_SHIFT);
    Min(base * Power2(shift), RETRY_MAX_MS)
  }

  function Delay(retryMS: int, failures: nat, jitter: int): int {
    var delay := BaseDelay(retryMS, failures);
    delay + TruncDiv(delay * jitter, 1000)
  }

  /**
   The computation as written, on the clock reading the jitter is taken from. The final lower clamp never
   acts, every intermediate value fits the signed 64-bit type, and the result fits the 32-bit one.
   */
  method ComputeRetryDelayMS(retryMS: int, failures: nat, time: nat) returns (delay: int)
    requires -INT32_MAX - 1 <= retryMS <= INT32_MAX && failures < UINT32
    ensures delay == Delay(retryMS, failures, time % 401 - 200)
    ensures 800 <= delay <= 360000 <= INT32_MAX
  {
    var base := retryMS;
    if base < RETRY_MIN_MS {
      base := RETRY_MIN_MS;
    }
    if base > RETRY_MAX_MS {
      base := RETRY_MAX_MS;
    }
    var shift := if failures > 1 then failures - 1 else 0;
    if shift > MAX_BACKOFF_SHIFT {
      shift := MAX_BACKOFF_SHIFT;
    }
    PowerSmall(shift);
    PowerScale(base, shift);
    delay := base * Power2(shift);
    assert -INT64_MAX <= delay <= INT64_MAX;
    if delay > RETRY_MAX_MS {
      delay := RETRY_MAX_MS;
    }
    assert delay == BaseDelay(retryMS, failures);
    var jitter := time % 401 - 200;
    JitterBounds(delay, jitter);
    assert -INT64_MAX <= delay * jitter <= INT64_MAX;
    delay := delay + TruncDiv(delay * jitter, 1000);
    if delay < MIN_DELAY_MS {
      delay := MIN_DELAY_MS;
    }
  }

  lemma {:induction false} PowerSmall(n: nat)
    requires n <= MAX_BACKOFF_SHIFT
    ensures 1 <= Power2(n) <= 256
  {
    assert Power2(4) == 16 && Power2(8) == 256;
    PowerGrows(n, MAX_BACKOFF_SHIFT);
    PowerGrows(0, n);
  }

  lemma {:induction false} PowerGrows(m: nat, n: nat)
    requires m <= n
    ensures Power2(m) <= Power2(n)
  {
    if m < n {
      PowerGrows(m, n - 1);
    }
  }

  lemma PowerScale(base: int, n: nat)
    requires RETRY_MIN_MS <= base <= RETRY_MAX_MS && 1 <= Power2(n) <= 256
    ensures base <= base * Power2(n) <= RETRY_MAX_MS * 256
  {
    ProductGrows(base, base, 1, Power2(n));
    ProductGrows(base, RETRY_MAX_MS, Power2(n), 256);
  }

  lemma JitterBounds(delay: int, jitter: int)
    requires RETRY_MIN_MS <= delay <= RETRY_MAX_MS && -200 <= jitter <= 200
    ensures 800 <= delay + TruncDiv(delay * jitter, 1000) <= 360000
    ensures -60000000 <= delay * jitter <= 60000000
  {
    var j := if jitter >= 0 then jitter else -jitter;
    var x := delay * j;
    ProductGrows(0, delay, 0, j);
    ProductGrows(delay, delay, j, 200);
    assert 0 <= x <= delay * 200 && delay * jitter == if jitter >= 0 then x else -x;
    assert 0 <= 1000 * (x / 1000) <= x;
  }

  /** For a fixed jitter, asking for a longer retry or failing more often never shortens the delay. */
  lemma DelayMonotone(retryA: int, retryB: int, failuresA: nat, failuresB: nat, jitter: int)
    requires retryA <= retryB && failuresA <= failuresB && -200 <= jitter <= 200
    ensures Delay(retryA, failuresA, jitter) <= Delay(retryB, failuresB, jitter)
  {
    var a, b := Max(RETRY_MIN_MS, Min(retryA, RETRY_MAX_MS)), Max(RETRY_MIN_MS, Min(retryB, RETRY_MAX_MS));
    var m, n := Min(Max(failuresA - 1, 0), MAX_BACKOFF_SHIFT), Min(Max(failuresB - 1, 0), MAX_BACKOFF_SHIFT);
    PowerGrows(m, n);
    PowerSmall(m);
    ProductGrows(a, b, Power2(m), Power2(n));
    JitterMonotone(BaseDelay(retryA, failuresA), BaseDelay(retryB, failuresB), jitter);
  }

  lemma ProductGrows(a: int, b: int, p: int, q: int)
    requires 0 <= a <= b && 0 <= p <= q
    ensures a * p <= b * q
  {
    assert a * p <= b * p <= b * q;
  }

  lemma JitterMonotone(x: int, y: int, jitter: int)
    requires x <= y && -200 <= jitter <= 200 && x >= 0
    ensures x + TruncDiv(x * jitter, 1000) <= y + TruncDiv(y * jitter, 1000)
  {
    if jitter >= 0 {
      ProductGrows(x, y, jitter, jitter);
      ProductGrows(0, x, 0, jitter);
    } else {
      var j := -jitter;
      ProductGrows(0, x, 0, j);
      ProductGrows(0, y - x, j, 1000);
      assert (y - x) * j == y * j - x * j;
      QuotientGap(x * j, y * j, y - x);
      assert x * jitter == -(x * j) && y * jitter == -(y * j);
    }
  }

  lemma QuotientGap(p: int, q: int, d: int)
    requires 0 <= p <= p + 1000 * d && q <= p + 1000 * d
    ensures q / 1000 <= p / 1000 + d
  {
  }

  // ---------- the shape of the delay ----------

  /** Up to one failure the delay is the retry time, between a second and five minutes. */
  lemma FirstDelay(retryMS: int, failures: nat)
    requires failures <= 1
    ensures BaseDelay(retryMS, failures)
         == if retryMS < 1000 then 1000 else if retryMS > 300000 then 300000 else retryMS
  {
  }

  /** The second to the ninth failure double the delay, up to five minutes; more change nothing. */
  lemma DelayDoubles(retryMS: int, failures: nat)
    requires failures >= 1
    ensures failures < 9 ==>
              var twice := 2 * BaseDelay(retryMS, failures);
              BaseDelay(retryMS, failures + 1) == if twice > 300000 then 300000 else twice
    ensures failures >= 9 ==> BaseDelay(retryMS, failures) == BaseDelay(retryMS, 9)
  {
    if failures < 9 {
      var base, p := Max(RETRY_MIN_MS, Min(retryMS, RETRY_MAX_MS)), Power2(failures - 1);
      PowerSmall(failures - 1);
      assert Power2(failures) == 2 * p;
      assert base * (2 * p) == 2 * (base * p);
    }
  }

  /** The division that adds the jitter drops the fraction, towards zero. */
  lemma TruncExact(a: int)
    ensures var q := TruncDiv(a, 1000);
            && (a >= 0 ==> 0 <= a - q * 1000 < 1000 && q >= 0)
            && (a < 0 ==> -1000 < a - q * 1000 <= 0 && q <= 0)
  {
  }

  // ---------- the worker's failure counter ----------

  datatype Outcome = Outcome(hasOpened: bool, ok: bool)

  /** The counter after some attempts, in the order the worker updates it; it is a 32-bit counter. */
  function Failures(outcomes: seq<Outcome>): nat {
    if outcomes == [] then 0
    else
      var o := Last(outcomes);
      var reset := if o.hasOpened then 0 else Failures(Init(outcomes));
      if o.ok then reset else (reset + 1) % UINT32
  }

  method CountFailures(outcomes: seq<Outcome>) returns (failures: nat)
    ensures failures == Failures(outcomes)
  {
    failures := 0;
    for i := 0 to |outcomes|
      invariant failures == Failures(outcomes[..i])
    {
      assert Init(outcomes[..i + 1]) == outcomes[..i];
      if outcomes[i].hasOpened {
        failures := 0;
      }
      if !outcomes[i].ok {
        failures := (failures + 1) % UINT32;
      }
    }
    assert outcomes[..|outcomes|] == outcomes;
  }

  predicate NeverOpened(outcomes: seq<Outcome>) {
    forall o :: o in outcomes ==> !o.hasOpened && !o.ok
  }

  lemma OneFailure(outcomes: seq<Outcome>, o: Outcome)
    requires !o.hasOpened && !o.ok && Failures(outcomes) + 1 < UINT32
    ensures Failures(outcomes + [o]) == Failures(outcomes) + 1
  {
    InitLast(outcomes, o);
  }

  /** k failures in a row that never opened, behind any attempt that opened or behind none, count k more. */
  lemma {:induction false} FailuresInARow(before: seq<Outcome>, failed: seq<Outcome>)
    requires NeverOpened(failed) && Failures(before) + |failed| < UINT32
    ensures Failures(before + failed) == Failures(before) + |failed|
  {
    hide Failures;
    if failed == [] {
      assert before + failed == before;
    } else {
      assert forall o :: o in Init(failed) ==> o in failed;
      assert Last(failed) in failed;
      FailuresInARow(before, Init(failed));
      assert before + failed == before + Init(failed) + [Last(failed)];
      OneFailure(before + Init(failed), Last(failed));
    }
  }

  /**
   After an attempt that opened, k attempts in a row that never opened count k, plus one if the opened one
   itself ended in an error; nothing before it matters.
   */
  lemma BackoffShape(before: seq<Outcome>, last: Outcome, failed: seq<Outcome>)
    requires last.hasOpened && NeverOpened(failed) && |failed| + 1 < UINT32
    ensures Failures(before + [last] + failed) == |failed| + if last.ok then 0 else 1
  {
    hide Failures;
    OpenedResets(before, last);
    FailuresInARow(before + [last], failed);
  }

  lemma OpenedResets(before: seq<Outcome>, last: Outcome)
    requires last.hasOpened
    ensures Failures(before + [last]) == if last.ok then 0 else 1
  {
  }
}
