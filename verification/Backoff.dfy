/** The retry policy of the Java client (BoundedExponentialBackoffRetryUntilElapsed.java). */
module Backoff {

  const INT_MIN := -0x8000_0000
  const INT_MAX := 0x7fff_ffff
  const LONG_MIN := -0x8000_0000_0000_0000
  const LONG_MAX := 0x7fff_ffff_ffff_ffff

  function Min(a: int, b: int): int { if a <= b then a else b }
  function Max(a: int, b: int): int { if a >= b then a else b }

  function Pow2(n: nat): (p: nat)
    ensures p >= 1 && (n >= 1 ==> p >= 2)
  {
    if n == 0 then 1 else 2 * Pow2(n - 1)
  }

  lemma {:induction false} Pow2Monotone(m: nat, n: nat)
    requires m <= n
    ensures Pow2(m) <= Pow2(n)
    decreases n - m
  {
    if m >= n {
    } else {
      Pow2Monotone(m, n - 1);
    }
  }

  /** `retryCount + 1` on an int. */
  function NextCount(retryCount: int): int
    requires INT_MIN <= retryCount <= INT_MAX
  {
    if retryCount == INT_MAX then INT_MIN else retryCount + 1
  }

  /** `1 << Math.min(30, retryCount + 1)`: Java takes the shift distance modulo 32. */
  function RandomBound(retryCount: int): (b: int)
    requires INT_MIN <= retryCount <= INT_MAX
  {
    var shift := Min(30, NextCount(retryCount)) % 32;
    if shift == 31 then INT_MIN else Pow2(shift)
  }

  /** The bound handed to nextInt is valid for every count from 0 up; nextInt would throw on a bound that is not
      positive. */
  lemma BoundIsPositive(retryCount: int)
    requires 0 <= retryCount <= INT_MAX
    ensures 1 <= RandomBound(retryCount) <= 0x4000_0000
    ensures retryCount < INT_MAX ==> RandomBound(retryCount) >= 2
  {
    var shift := Min(30, NextCount(retryCount)) % 32;
    assert shift <= 30;
    Pow2Monotone(shift, 30);
    assert Pow2(30) == 0x4000_0000 by { Pow2Of30(); }
  }

  /** The bound doubles from 2 at the first retry to 2^30, stays there, and falls to 1 where the count overflows. */
  lemma RandomBoundMeans(retryCount: int)
    requires 0 <= retryCount <= INT_MAX
    ensures RandomBound(0) == 2
    ensures 0 < retryCount <= 29 ==> RandomBound(retryCount) == 2 * RandomBound(retryCount - 1)
    ensures 29 <= retryCount < INT_MAX ==> RandomBound(retryCount) == 0x4000_0000
    ensures RandomBound(INT_MAX) == 1
  {
    assert Pow2(0) == 1 && Pow2(1) == 2;
    BoundIsPower(retryCount);
    BoundIsPower(0);
    BoundIsPower(INT_MAX);
    if retryCount > 0 {
      BoundIsPower(retryCount - 1);
    }
    if retryCount >= 29 {
      Pow2Of30();
    }
  }

  lemma BoundIsPower(retryCount: int)
    requires 0 <= retryCount <= INT_MAX
    ensures RandomBound(retryCount)
            == Pow2(if retryCount == INT_MAX then 0 else if retryCount < 29 then retryCount + 1 else 30)
  {
    if retryCount == INT_MAX {
      assert Min(30, NextCount(retryCount)) == -0x400_0000 * 32;
    } else {
      SmallShift(Min(30, retryCount + 1));
    }
  }

  lemma SmallShift(n: nat)
    requires n < 32
    ensures n % 32 == n
  {
  }

  lemma Pow2Of30()
    ensures Pow2(30) == 0x4000_0000
  {
    assert Pow2(10) == 1024;
    assert Pow2(20) == 1024 * Pow2(10);
    assert Pow2(30) == 1024 * Pow2(20);
  }

  datatype Policy = Policy(base: int, max: int, maxElapsed: int) {
    /** Fields within their Java types, and a time limit as the constructor leaves it. */
    predicate Valid() {
      INT_MIN <= base <= INT_MAX && INT_MIN <= max <= INT_MAX && 0 <= maxElapsed <= LONG_MAX
    }

    /** getSleepTimeMs, for the number `random` that nextInt yields. */
    function SleepTime(random: nat): int {
      Min(max, base * Max(1, random))
    }
  }

  /** The constructor: a negative limit means no limit. */
  function Create(base: int, max: int, maxElapsed: int): (p: Policy)
    requires INT_MIN <= base <= INT_MAX && INT_MIN <= max <= INT_MAX && LONG_MIN <= maxElapsed <= LONG_MAX
    ensures p.Valid() && p.base == base && p.max == max
    ensures p.maxElapsed == if maxElapsed < 0 then LONG_MAX else maxElapsed
  {
    Policy(base, max, if maxElapsed < 0 then LONG_MAX else maxElapsed)
  }

  lemma Times(a: int, m: int, n: int)
    requires 0 <= m <= n
    ensures a >= 0 ==> a * m <= a * n
    ensures a < 0 ==> a * m >= a * n
  {
  }

  /** The product that is capped never leaves the range of a long. */
  lemma NoOverflow(p: Policy, retryCount: int, random: nat)
    requires p.Valid() && 0 <= retryCount <= INT_MAX && random < RandomBound(retryCount)
    ensures LONG_MIN <= p.base * Max(1, random) <= LONG_MAX
  {
    BoundIsPositive(retryCount);
    Times(p.base, Max(1, random), 0x4000_0000);
    Times(p.base, 0, Max(1, random));
    assert LONG_MIN <= p.base * 0x4000_0000 <= LONG_MAX;
  }

  /** Every delay the policy can choose for a count lies between min(base, max) and max exactly when the base is not
      negative, or the random factor cannot exceed 1, or the cap is below even the largest product. */
  lemma DelayBoundedIff(p: Policy, retryCount: int)
    requires p.Valid() && 0 <= retryCount <= INT_MAX
    ensures (forall random: nat | random < RandomBound(retryCount) ::
               Min(p.base, p.max) <= p.SleepTime(random) <= p.max)
      <==> (p.base >= 0 || RandomBound(retryCount) <= 2 || p.max <= p.base * (RandomBound(retryCount) - 1))
  {
    if p.base >= 0 || RandomBound(retryCount) <= 2 || p.max <= p.base * (RandomBound(retryCount) - 1) {
      forall random: nat | random < RandomBound(retryCount)
        ensures Min(p.base, p.max) <= p.SleepTime(random) <= p.max
      {
        DelayBounded(p, retryCount, random);
      }
    } else {
      DelayUnbounded(p, retryCount);
    }
  }

  lemma DelayBounded(p: Policy, retryCount: int, random: nat)
    requires p.Valid() && 0 <= retryCount <= INT_MAX && random < RandomBound(retryCount)
    requires p.base >= 0 || RandomBound(retryCount) <= 2 || p.max <= p.base * (RandomBound(retryCount) - 1)
    ensures Min(p.base, p.max) <= p.SleepTime(random) <= p.max
  {
    var b := RandomBound(retryCount);
    BoundIsPositive(retryCount);
    Times(p.base, 1, Max(1, random));
    Times(p.base, Max(1, random), Max(1, b - 1));
  }

  lemma DelayUnbounded(p: Policy, retryCount: int)
    requires p.Valid() && 0 <= retryCount <= INT_MAX
    requires p.base < 0 && RandomBound(retryCount) > 2 && p.max > p.base * (RandomBound(retryCount) - 1)
    ensures p.SleepTime(RandomBound(retryCount) - 1) < Min(p.base, p.max)
  {
    Times(p.base, 2, RandomBound(retryCount) - 1);
  }

  /** What allowRetry answers. */
  datatype Verdict = Stop | Interrupted(sleepMs: int) | Retry(sleepMs: int)

  /** allowRetry: the sleep is cut to the time left; an interrupted sleep ends the retries. */
  function AllowRetry(p: Policy, elapsed: int, random: nat, interrupted: bool): (v: Verdict)
    requires p.Valid() && 0 <= elapsed <= LONG_MAX
  {
    if elapsed >= p.maxElapsed then Stop
    else
      var sleep := Min(p.maxElapsed - elapsed, p.SleepTime(random));
      if interrupted then Interrupted(sleep) else Retry(sleep)
  }

  /** A retry is allowed exactly when time is left and the sleep is not interrupted; the sleep is the least of the time
      left, the cap, and the base times the random factor, which is at least 1. */
  lemma RetryIff(p: Policy, elapsed: int, random: nat, interrupted: bool)
    requires p.Valid() && 0 <= elapsed <= LONG_MAX
    ensures var v, left, product := AllowRetry(p, elapsed, random, interrupted), p.maxElapsed - elapsed,
                                    if random == 0 then p.base else p.base * random;
      && (v.Retry? <==> left > 0 && !interrupted) && (v.Interrupted? <==> left > 0 && interrupted)
      && (!v.Stop? ==>
            && v.sleepMs <= left && v.sleepMs <= p.max && v.sleepMs <= product
            && (v.sleepMs == left || v.sleepMs == p.max || v.sleepMs == product))
  {
  }

  // ----- a whole run of retries -----

  /** One attempt: the time elapsed when the policy is asked, and the random number drawn. */
  datatype Attempt = Attempt(elapsed: int, random: nat)

  /** The i-th attempt is asked with count i; each is allowed; and at least the sleep passes before the next. */
  predicate AllowedRun(p: Policy, run: seq<Attempt>)
    requires p.Valid()
  {
    && |run| <= INT_MAX
    && (forall i | 0 <= i < |run| ::
          0 <= run[i].elapsed <= LONG_MAX && run[i].random < RandomBound(i) && SleepAt(p, run[i]).Retry?)
    && (forall i, j | 0 <= i && j == i + 1 < |run| :: run[j].elapsed >= run[i].elapsed + SleepOf(p, run[i]))
  }

  function SleepAt(p: Policy, a: Attempt): Verdict
    requires p.Valid()
  {
    if 0 <= a.elapsed <= LONG_MAX then AllowRetry(p, a.elapsed, a.random, false) else Stop
  }

  function SleepOf(p: Policy, a: Attempt): int
    requires p.Valid()
  {
    var v := SleepAt(p, a);
    if v.Retry? then v.sleepMs else 0
  }

  function TotalSleep(p: Policy, run: seq<Attempt>): int
    requires p.Valid()
  {
    if run == [] then 0 else TotalSleep(p, run[..|run|-1]) + SleepOf(p, run[|run|-1])
  }

  lemma RunPrefix(p: Policy, run: seq<Attempt>)
    requires p.Valid() && AllowedRun(p, run) && run != []
    ensures AllowedRun(p, run[..|run|-1])
  {
  }

  /** After any run the sleeps add up to no more than the last elapsed time plus its sleep, which is within the
      limit. */
  lemma {:induction false} TotalSleepBounded(p: Policy, run: seq<Attempt>)
    requires p.Valid() && AllowedRun(p, run)
    ensures TotalSleep(p, run) <= p.maxElapsed
    ensures run != [] ==> TotalSleep(p, run) <= run[|run|-1].elapsed + SleepOf(p, run[|run|-1]) <= p.maxElapsed
    decreases |run|
  {
    if run == [] {
    } else {
      var n := |run| - 1;
      var init := run[..n];
      RunPrefix(p, run);
      TotalSleepBounded(p, init);
      if n > 0 {
        assert init[n-1] == run[n-1];
        assert run[n].elapsed >= run[n-1].elapsed + SleepOf(p, run[n-1]);
      }
    }
  }

  /** Before the k-th retry at least k full delays have passed: only the last sleep of a run can be cut short. */
  lemma {:induction false} ElapsedGrows(p: Policy, run: seq<Attempt>, k: nat)
    requires p.Valid() && AllowedRun(p, run) && k < |run| && p.base > 0 && p.max > 0
    ensures run[k].elapsed >= k * Min(p.base, p.max)
    decreases k
  {
    if k == 0 {
    } else {
      var m := Min(p.base, p.max);
      ElapsedGrows(p, run, k - 1);
      FullSleep(p, run, k);
      assert k * m == (k - 1) * m + m;
    }
  }

  lemma FullSleep(p: Policy, run: seq<Attempt>, k: nat)
    requires p.Valid() && AllowedRun(p, run) && 0 < k < |run| && p.base > 0 && p.max > 0
    ensures run[k].elapsed >= run[k-1].elapsed + Min(p.base, p.max)
  {
    assert run[k].elapsed >= run[k-1].elapsed + SleepOf(p, run[k-1]);
    assert run[k].elapsed < p.maxElapsed;
    DelayAtLeast(p, k - 1, run[k-1].random);
  }

  lemma DelayAtLeast(p: Policy, retryCount: int, random: nat)
    requires p.Valid() && p.base > 0 && 0 <= retryCount <= INT_MAX && random < RandomBound(retryCount)
    ensures p.SleepTime(random) >= Min(p.base, p.max)
  {
    Times(p.base, 1, Max(1, random));
  }

  /** With positive base and cap at most ceil(maxElapsed / min(base, max)) retries are allowed. */
  lemma RetriesBounded(p: Policy, run: seq<Attempt>)
    requires p.Valid() && AllowedRun(p, run) && p.base > 0 && p.max > 0
    ensures var m := Min(p.base, p.max); |run| <= (p.maxElapsed + m - 1) / m
  {
    var m, n := Min(p.base, p.max), |run|;
    if n > 0 {
      ElapsedGrows(p, run, n - 1);
      assert (n - 1) * m < p.maxElapsed;
      CeilAtLeast(p.maxElapsed, m, n);
    }
  }

  lemma CeilAtLeast(a: nat, m: nat, n: nat)
    requires m > 0 && n > 0 && (n - 1) * m < a
    ensures n <= (a + m - 1) / m
  {
    var q := (a + m - 1) / m;
    assert n * m == (n - 1) * m + m;
    assert a + m - 1 < (q + 1) * m;
    Ordered(m, q + 1, n);
  }

  lemma Ordered(m: nat, a: int, b: int)
    ensures a <= b ==> a * m <= b * m
  {
  }
}
