/**
 * Python's float-to-integer conversions on real numbers: `int(x)`
 * truncates toward zero, `math.floor` and `math.ceil` round down and up.
 */
module Numerics {
  /** `int(x)` on a float: truncation toward zero. */
  function Trunc(x: real): (n: int)
    ensures x >= 0.0 ==> 0 <= n && n as real <= x < n as real + 1.0
    ensures x < 0.0 ==> n <= 0 && n as real - 1.0 < x <= n as real
  {
    if x >= 0.0 then Floor(x) else -Floor(-x)
  }

  /** `math.floor(x)`: the greatest integer not above `x`. */
  function Floor(x: real): (n: int)
    ensures n as real <= x < n as real + 1.0
  {
    x.Floor
  }

  /** `math.ceil(x)`: the least integer not below `x`. */
  function Ceil(x: real): (n: int)
    ensures n as real - 1.0 < x <= n as real
  {
    -Floor(-x)
  }

  /** Truncation is monotone on non-negative reals. */
  lemma TruncMonotone(x: real, y: real)
    requires 0.0 <= x <= y
    ensures Trunc(x) <= Trunc(y)
  {
    assert Trunc(x) as real <= y < Trunc(y) as real + 1.0;
  }

  /** Every conversion leaves an integral value unchanged. */
  lemma IntegralFixed(n: int)
    ensures Trunc(n as real) == n && Floor(n as real) == n && Ceil(n as real) == n
  {
  }
}
