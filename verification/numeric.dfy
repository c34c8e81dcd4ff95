/**
 Exact-real stand-ins for the handful of `f32` operations the colour code uses:
 absolute value, maximum and minimum, Rust's float remainder `%` (which truncates
 toward zero, so the remainder keeps the sign of the dividend), `round` (half away
 from zero) and the saturating cast `as u32`.
 */
module Numeric {

  datatype Option<+T> = None | Some(value: T)

  const U32_MAX: nat := 0xFFFF_FFFF

  function Abs(x: real): (r: real)
    ensures r >= 0.0
    ensures r == x || r == -x
    ensures r >= x && r >= -x
  {
    if x < 0.0 then -x else x
  }

  function Max(a: real, b: real): (r: real)
    ensures r >= a && r >= b
    ensures r == a || r == b
  {
    if a < b then b else a
  }

  function Min(a: real, b: real): (r: real)
    ensures r <= a && r <= b
    ensures r == a || r == b
  {
    if a < b then a else b
  }

  /** Integer part of `x`, rounding toward zero. */
  function Trunc(x: real): (r: int)
    ensures x >= 0.0 ==> 0 <= r && r as real <= x < r as real + 1.0
    ensures x < 0.0 ==> r <= 0 && r as real - 1.0 < x <= r as real
  {
    if x >= 0.0 then x.Floor else -((-x).Floor)
  }

  /** The moduli the colour code takes float remainders by. */
  predicate IsModulus(m: real) {
    m == 2.0 || m == 6.0 || m == 360.0
  }

  /** Rust's `x % m` on floats: `x - m * trunc(x / m)`, so the result has the sign of `x`. */
  function FRem(x: real, m: real): (r: real)
    requires IsModulus(m)
    ensures x >= 0.0 ==> 0.0 <= r < m
    ensures x < 0.0 ==> -m < r <= 0.0
    ensures -m < x < m ==> r == x
    ensures m <= x < m + m ==> r == x - m
  {
    var q := Trunc(x / m) as real;
    assert x >= 0.0 ==> q * m <= x < q * m + m;
    assert x < 0.0 ==> q * m - m < x <= q * m;
    assert -m < x < m ==> q == 0.0;
    assert m <= x < m + m ==> q == 1.0;
    x - q * m
  }

  /** A quotient whose numerator is no larger in size than its positive denominator lies in [-1, 1]. */
  lemma QuotientInUnit(n: real, d: real)
    ensures d > 0.0 && -d <= n <= d ==> -1.0 <= n / d <= 1.0
  {
  }

  /**
   Rust's `f32::round`: to the nearest integer, halves away from zero. The Rust code
   keeps the result as a float; its value is the integer returned here.
   */
  function Round(x: real): (r: int)
    ensures Abs(r as real - x) <= 0.5
    ensures x >= 0.0 ==> r >= 0 && r as real <= x + 0.5 < r as real + 1.0
    ensures x <= 0.0 ==> r <= 0
  {
    if x >= 0.0 then (x + 0.5).Floor else -((0.5 - x).Floor)
  }

  /** Rust's saturating cast `as u32` applied to a float that already holds an integer. */
  function SaturateU32(n: int): (r: nat)
    ensures r <= U32_MAX
    ensures n <= 0 ==> r == 0
    ensures n >= U32_MAX ==> r == U32_MAX
    ensures 0 <= n <= U32_MAX ==> r == n
  {
    if n <= 0 then 0 else if n >= U32_MAX then U32_MAX else n
  }
}
