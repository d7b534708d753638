/** Floor division by a variable and two's-complement wrap-around, which Dafny's unbounded
    integers do not provide by themselves. */
module Arith {
  const TWO_63: int := 0x8000_0000_0000_0000
  const TWO_64: int := 0x1_0000_0000_0000_0000
  const MAX_INT64: int := TWO_63 - 1

  function Min(a: int, b: int): int {
    if a <= b then a else b
  }

  /** Counts a condition. */
  function One(b: bool): nat {
    if b then 1 else 0
  }

  function Digit(n: int): char
    requires 0 <= n <= 9
  {
    ['0', '1', '2', '3', '4', '5', '6', '7', '8', '9'][n]
  }

  /** The number that decimal digits denote. */
  function Number(digits: string): int {
    if digits == "" then 0
    else 10 * Number(digits[..|digits| - 1]) + (digits[|digits| - 1] as int - '0' as int)
  }

  /** The value a Go uint64 holds after an operation whose exact result is x. */
  function Mod64(x: int): int {
    if 0 <= x < TWO_64 then x else x % TWO_64
  }

  /** The value a Go int64 holds after an operation whose exact result is x. */
  function Wrap64(x: int): int {
    if -TWO_63 <= x < TWO_63 then x else (x + TWO_63) % TWO_64 - TWO_63
  }

  lemma MultipleIsFar(k: int, w: int)
    requires 0 < w
    ensures 1 <= k ==> w <= k * w
    ensures k <= -1 ==> k * w <= -w
  {
  }

  lemma DivUnique(a: int, w: int, q: int)
    requires 0 < w
    requires q * w <= a < q * w + w
    ensures a / w == q
  {
    var p := a / w;
    assert a == w * p + a % w;
    assert (p - q) * w == w * p - q * w;
    MultipleIsFar(p - q, w);
  }

  /** Flooring each part of a sum loses at most one unit against flooring the sum. */
  lemma FloorSum(a: int, b: int, w: int)
    requires 0 < w
    ensures a / w + b / w <= (a + b) / w <= a / w + b / w + 1
  {
    var q := a / w + b / w;
    assert a + b == q * w + (a % w + b % w) by {
      assert a == w * (a / w) + a % w;
      assert b == w * (b / w) + b % w;
    }
    if a % w + b % w < w {
      DivUnique(a + b, w, q);
    } else {
      assert (q + 1) * w == q * w + w;
      DivUnique(a + b, w, q + 1);
    }
  }

  lemma FloorMonotone(a: int, b: int, w: int)
    requires 0 < w && a <= b
    ensures a / w <= b / w
  {
    var p, q := a / w, b / w;
    assert a == w * p + a % w && b == w * q + b % w;
    assert (p - q) * w == w * p - w * q;
    MultipleIsFar(p - q, w);
  }

  lemma FloorOfMultiple(k: int, w: int)
    requires 0 < w
    ensures k * w / w == k
  {
    DivUnique(k * w, w, k);
  }

  lemma MulMonotone(a: int, b: int, k: int)
    requires a <= b && 0 <= k
    ensures a * k <= b * k
  {
  }

  lemma ModIgnoresMultiples(x: int, k: int)
    ensures (x + k * TWO_64) % TWO_64 == x % TWO_64 && Mod64(x + k * TWO_64) == Mod64(x)
  {
    assert x == (x / TWO_64) * TWO_64 + x % TWO_64;
    assert x + k * TWO_64 == (x / TWO_64 + k) * TWO_64 + x % TWO_64;
  }

  lemma WrapIgnoresMultiples(x: int, k: int)
    ensures Wrap64(x + k * TWO_64) == Wrap64(x)
  {
    ModIgnoresMultiples(x + TWO_63, k);
  }
}
