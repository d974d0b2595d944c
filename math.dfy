/**
 * Decimal helpers of the shared library: the table of powers of ten, the
 * digit counter built on it, and integer exponentiation by squaring.
 *
 * The C++ helpers are templates over an integer type; here every integer is
 * unbounded and the type enters only through `maxDigits`, the number of
 * decimal digits the type can always hold (`digits10`: 9 for a 32-bit int,
 * 18 for a 64-bit long).
 */
module AocMath {

  /** b to the power e: the reference definition the helpers are proved against. */
  function Pow(b: int, e: nat): int
  {
    if e == 0 then 1 else b * Pow(b, e - 1)
  }

  lemma {:induction false} PowAdd(b: int, m: nat, n: nat)
    ensures Pow(b, m + n) == Pow(b, m) * Pow(b, n)
    decreases m
  {
    if m > 0 {
      PowAdd(b, m - 1, n);
    }
  }

  lemma {:induction false} PowTenPositive(e: nat)
    ensures Pow(10, e) >= 1
  {
    if e > 0 {
      PowTenPositive(e - 1);
    }
  }

  /** Powers of ten strictly increase with the exponent. */
  lemma {:induction false} PowTenMonotone(i: nat, j: nat)
    requires i < j
    ensures Pow(10, i) < Pow(10, j)
    decreases j
  {
    PowTenPositive(j - 1);
    if i < j - 1 {
      PowTenMonotone(i, j - 1);
    }
  }

  /**
   * powi: exponentiation by squaring, with the short cuts for exponents 0, 1
   * and 2; the result is base to the power exponent.
   */
  function Powi(base: int, exponent: nat): (r: int)
    ensures r == Pow(base, exponent)
    decreases exponent
  {
    if exponent == 0 then 1
    else if exponent == 1 then base
    else if exponent == 2 then
      PowAdd(base, 1, 1);
      base * base
    else
      var half := exponent / 2;
      var tmp := Powi(base, half);
      PowAdd(base, half, half);
      if exponent % 2 == 1 then
        PowAdd(base, half + half, 1);
        tmp * tmp * base
      else
        tmp * tmp
  }

  /**
   * gen_powers_of_10: element i of the table is 10^(i+1), for the
   * maxDigits entries a type with that many decimal digits can hold.
   */
  method GenPowersOf10(maxDigits: nat) returns (arr: seq<int>)
    ensures |arr| == maxDigits
    ensures forall i :: 0 <= i < |arr| ==> arr[i] == Pow(10, i + 1)
  {
    arr := [];
    var x := 1;
    var i := 0;
    while i < maxDigits
      invariant 0 <= i <= maxDigits
      invariant |arr| == i
      invariant x == Pow(10, i)
      invariant forall k :: 0 <= k < i ==> arr[k] == Pow(10, k + 1)
    {
      x := x * 10;
      arr := arr + [x];
      i := i + 1;
    }
  }

  /** Consecutive table entries grow by a factor of ten. */
  lemma PowersOf10Ratio(arr: seq<int>, i: nat)
    requires forall k :: 0 <= k < |arr| ==> arr[k] == Pow(10, k + 1)
    requires 1 <= i < |arr|
    ensures arr[i] == arr[i - 1] * 10
  {
    assert arr[i] == Pow(10, i + 1) == 10 * Pow(10, i);
  }

  /** The number of decimal digits of a natural number (0 has one digit). */
  function DigitCount(v: nat): (n: nat)
    ensures n >= 1
  {
    if v < 10 then 1 else 1 + DigitCount(v / 10)
  }

  /** A number with n digits lies in [10^(n-1), 10^n). */
  lemma {:induction false} DigitCountBounds(v: nat)
    ensures v < Pow(10, DigitCount(v))
    ensures v >= 1 ==> Pow(10, DigitCount(v) - 1) <= v
    decreases v
  {
    if v >= 10 {
      DigitCountBounds(v / 10);
    }
  }

  /** A number in [10^(n-1), 10^n) has exactly n digits. */
  lemma {:induction false} DigitCountOfRange(v: nat, n: nat)
    requires n >= 1
    requires Pow(10, n - 1) <= v < Pow(10, n) || (n == 1 && v < 10)
    ensures DigitCount(v) == n
    decreases n
  {
    if n == 1 {
    } else {
      assert Pow(10, n) == 10 * Pow(10, n - 1);
      assert Pow(10, n - 1) == 10 * Pow(10, n - 2);
      PowTenPositive(n - 2);
      DigitCountOfRange(v / 10, n - 1);
    }
  }

  /** num_digits(10^k) is k+1 and num_digits(10^k - 1) is k. */
  lemma DigitCountOfPowers(k: nat)
    ensures Pow(10, k) >= 1 && DigitCount(Pow(10, k)) == k + 1
    ensures k >= 1 ==> DigitCount(Pow(10, k) - 1) == k
  {
    PowTenPositive(k);
    assert Pow(10, k + 1) == 10 * Pow(10, k);
    DigitCountOfRange(Pow(10, k), k + 1);
    if k >= 1 {
      PowTenMonotone(k - 1, k);
      DigitCountOfRange(Pow(10, k) - 1, k);
    }
  }

  /**
   * num_digits: one more than the position upper_bound finds for value in
   * the table of powers of ten. For 0 < value < 10^(maxDigits+1) (every
   * positive value of the type) that is the decimal digit count; zero and
   * negative values give 1.
   */
  method NumDigits(value: int, maxDigits: nat) returns (n: int)
    ensures 1 <= n <= maxDigits + 1
    ensures value <= 0 ==> n == 1
    ensures 0 <= value < Pow(10, maxDigits + 1) ==> n == DigitCount(value)
  {
    var powers := GenPowersOf10(maxDigits);
    // upper_bound: first index whose power exceeds value
    var lo, hi := 0, |powers|;
    while lo < hi
      invariant 0 <= lo <= hi <= |powers|
      invariant forall k :: 0 <= k < lo ==> powers[k] <= value
      invariant forall k :: hi <= k < |powers| ==> powers[k] > value
    {
      var mid := (lo + hi) / 2;
      if powers[mid] <= value {
        forall k | 0 <= k <= mid
          ensures powers[k] <= value
        {
          if k < mid {
            PowTenMonotone(k + 1, mid + 1);
          }
        }
        lo := mid + 1;
      } else {
        forall k | mid <= k < |powers|
          ensures powers[k] > value
        {
          if mid < k {
            PowTenMonotone(mid + 1, k + 1);
          }
        }
        hi := mid;
      }
    }
    n := lo + 1;
    if lo > 0 {
      assert powers[0] == Pow(10, 1) == 10;
    }
    if 0 <= value < Pow(10, maxDigits + 1) {
      // value lies in [10^lo, 10^(lo+1)), or below 10 when lo is 0
      if lo > 0 {
        assert powers[lo - 1] == Pow(10, lo) <= value;
      }
      if lo < maxDigits {
        assert value < powers[lo] == Pow(10, lo + 1);
      }
      DigitCountOfRange(value, lo + 1);
    }
  }
}
