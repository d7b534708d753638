/** Exponential retry delays in wrapping 64-bit arithmetic. */
module Backoff {
  import opened Arith

  function Pow2(n: nat): int {
    if n == 0 then 1 else 2 * Pow2(n - 1)
  }

  /** Go's 1 << n on a 64-bit int: bits shifted out are gone. */
  function Shift(n: nat): int {
    if 64 <= n then 0 else Wrap64(Pow2(n))
  }

  /** The delay before the retry that follows the given attempt. */
  function Delay(base: int, max: int, attempt: int): int {
    if attempt <= 1 then base
    else
      var delay := Wrap64(Shift(attempt - 1) * base);
      if max < delay then max else delay
  }

  /** base * 2^n. */
  function Doubled(base: int, n: nat): int {
    if n == 0 then base else 2 * Doubled(base, n - 1)
  }

  lemma {:induction false} DoubledIsProduct(base: int, n: nat)
    ensures Doubled(base, n) == Pow2(n) * base
  {
    if 0 < n {
      DoubledIsProduct(base, n - 1);
    }
  }

  lemma {:induction false} DoubledGrows(base: int, a: nat, b: nat)
    requires a <= b && 0 < base
    ensures 0 < base <= Doubled(base, a) <= Doubled(base, b)
    decreases b
  {
    if a < b {
      DoubledGrows(base, a, b - 1);
    } else if 0 < a {
      DoubledGrows(base, a - 1, a - 1);
    }
  }

  /** The delay as documented: doubled with every attempt, capped. */
  function Intended(base: int, max: int, attempt: int): int
    requires 1 <= attempt
  {
    Min(Doubled(base, attempt - 1), max)
  }

  lemma {:induction false} Pow2Adds(a: nat, b: nat)
    ensures Pow2(a + b) == Pow2(a) * Pow2(b)
    decreases b
  {
    if 0 < b {
      Pow2Adds(a, b - 1);
    }
  }

  lemma Pow64()
    ensures Pow2(64) == TWO_64
  {
    Pow2Adds(8, 8);
    Pow2Adds(16, 16);
    Pow2Adds(32, 32);
    assert Pow2(8) == 256;
  }

  lemma Distribute(p: int, k: int, base: int)
    ensures (p + k * TWO_64) * base == p * base + (k * base) * TWO_64
  {
  }

  /** How far the shifted factor is from the true power of two: whole multiples of 2^64. */
  lemma ShiftIsCongruent(n: nat) returns (k: int)
    ensures Shift(n) == Pow2(n) + k * TWO_64
  {
    if 64 <= n {
      Pow64();
      Pow2Adds(64, n - 64);
      k := -Pow2(n - 64);
    } else {
      var y := Pow2(n) + TWO_63;
      k := -(y / TWO_64);
    }
  }

  /** Wrapping the shifted factor first does not change the wrapped product. */
  lemma ShiftedProduct(n: nat, base: int)
    ensures Wrap64(Shift(n) * base) == Wrap64(Doubled(base, n))
  {
    var k := ShiftIsCongruent(n);
    Distribute(Pow2(n), k, base);
    DoubledIsProduct(base, n);
    WrapIgnoresMultiples(Pow2(n) * base, k * base);
  }

  /** From the second attempt on, the delay is the wrapped product, capped. */
  lemma DelayIsWrappedProduct(base: int, max: int, attempt: int)
    requires 0 < base <= max <= MAX_INT64 && 1 <= attempt
    ensures Delay(base, max, attempt) == if attempt == 1 then base else Min(Wrap64(Doubled(base, attempt - 1)), max)
  {
    if 1 < attempt {
      ShiftedProduct(attempt - 1, base);
    }
  }

  predicate Fits(base: int, attempt: int) {
    1 <= attempt && Doubled(base, attempt - 1) <= MAX_INT64
  }

  lemma DelayWhileFits(base: int, max: int, attempt: int)
    requires 0 < base <= max <= MAX_INT64 && Fits(base, attempt)
    ensures Delay(base, max, attempt) == Intended(base, max, attempt)
  {
    DoubledGrows(base, 0, attempt - 1);
    DelayIsWrappedProduct(base, max, attempt);
  }

  /** The first attempt whose product does not fit gets a negative delay: the product has doubled
      past 2^63 but not yet reached 2^64. */
  lemma FirstMisfitIsNegative(base: int, max: int, attempt: int)
    requires 0 < base <= max <= MAX_INT64 && Fits(base, attempt) && !Fits(base, attempt + 1)
    ensures Delay(base, max, attempt + 1) == Doubled(base, attempt) - TWO_64 < 0
  {
    DelayIsWrappedProduct(base, max, attempt + 1);
  }

  /** A lineage that gets past its last fitting attempt has met the first misfit. */
  lemma {:induction false} FirstMisfit(base: int, n: int) returns (attempt: int)
    requires 0 < base <= MAX_INT64 && 1 <= n && !Fits(base, n)
    ensures 1 <= attempt < n && Fits(base, attempt) && !Fits(base, attempt + 1)
    decreases n
  {
    if Fits(base, n - 1) {
      attempt := n - 1;
    } else {
      attempt := FirstMisfit(base, n - 1);
    }
  }

  /** Every delay up to attempt n is the documented one exactly when the product of attempt n fits
      64 bits. */
  lemma DelaysIntendedIff(base: int, max: int, n: int)
    requires 0 < base <= max <= MAX_INT64 && 1 <= n
    ensures (forall a :: 1 <= a <= n ==> Delay(base, max, a) == Intended(base, max, a)) <==> Fits(base, n)
  {
    if Fits(base, n) {
      forall a | 1 <= a <= n ensures Delay(base, max, a) == Intended(base, max, a) {
        DoubledGrows(base, a - 1, n - 1);
        DelayWhileFits(base, max, a);
      }
    } else {
      var last := FirstMisfit(base, n);
      FirstMisfitIsNegative(base, max, last);
      DoubledGrows(base, 0, last);
      assert Delay(base, max, last + 1) < 0 < Intended(base, max, last + 1);
    }
  }

  /** With a base of one second that happens at attempt 35, whatever the cap. */
  lemma OneSecondMisfit(max: int)
    requires 1_000_000_000 <= max <= MAX_INT64
    ensures Delay(1_000_000_000, max, 35) == -1_266_874_889_709_551_616
  {
    OneSecondBase(34);
    OneSecondBase(35);
    FirstMisfitIsNegative(1_000_000_000, max, 34);
    DoubledIsProduct(1_000_000_000, 34);
    Pow2Adds(17, 17);
    Pow2Adds(8, 9);
    assert Pow2(8) == 256 && Pow2(9) == 512;
  }

  /** Attempt 65 and later are retried at once, whatever the base. */
  lemma LateAttemptsDoNotWait(base: int, max: int, attempt: int)
    requires 0 < base <= max <= MAX_INT64 && 65 <= attempt
    ensures Delay(base, max, attempt) == 0 && Intended(base, max, attempt) > 0
  {
    DoubledGrows(base, 0, attempt - 1);
  }

  /** With a base of one second the product fits up to attempt 34. */
  lemma OneSecondBase(attempt: int)
    requires 1 <= attempt
    ensures Fits(1_000_000_000, attempt) <==> attempt <= 34
  {
    var base := 1_000_000_000;
    Pow2Adds(8, 8);
    Pow2Adds(16, 16);
    assert Pow2(8) == 256;
    assert Pow2(33) == 2 * Pow2(32) && Pow2(34) == 2 * Pow2(33);
    DoubledIsProduct(base, 33);
    DoubledIsProduct(base, 34);
    if attempt <= 34 {
      DoubledGrows(base, attempt - 1, 33);
    } else {
      DoubledGrows(base, 34, attempt - 1);
    }
  }

  /** While the product fits, delays never shrink from one attempt to a later one, and once capped
      they stay capped. */
  lemma DelaysNeverShrink(base: int, max: int, a: int, b: int)
    requires 0 < base <= max <= MAX_INT64 && 1 <= a <= b && Fits(base, b)
    ensures base <= Delay(base, max, a) <= Delay(base, max, b) <= max
    ensures Delay(base, max, a) == max ==> Delay(base, max, b) == max
  {
    DoubledGrows(base, 0, a - 1);
    DoubledGrows(base, a - 1, b - 1);
    DelayWhileFits(base, max, a);
    DelayWhileFits(base, max, b);
  }

  /** The delays after attempts 1 to k together. */
  function TotalDelay(base: int, max: int, k: nat): int {
    if k == 0 then 0 else TotalDelay(base, max, k - 1) + Delay(base, max, k)
  }

  /** Together they stay within base * (2^k - 1) and within k caps. */
  lemma {:induction false} TotalDelayBound(base: int, max: int, k: nat)
    requires 0 < base <= max <= MAX_INT64 && (k == 0 || Fits(base, k))
    ensures TotalDelay(base, max, k) <= Min(Doubled(base, k) - base, k * max)
  {
    if 0 < k {
      if 1 < k {
        DoubledGrows(base, k - 2, k - 1);
      }
      TotalDelayBound(base, max, k - 1);
      DelayWhileFits(base, max, k);
      assert k * max == (k - 1) * max + max;
    }
  }
}
