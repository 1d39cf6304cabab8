/**
 * The mode operators of the reference pooling: a start value, a binary
 * combinator folded over the window and a finaliser applied to the
 * accumulator and the divisor.
 */
module PoolingOperators {
  import opened PoolingGeometry

  /** The lowest finite single-precision value, -(2 - 2^-23) * 2^127, as an exact real. */
  const Lowest: real := -340282346638528859811704183484516925440.0

  /** Combining operator: max in max mode, addition in average mode. */
  function Combine(m: Mode, x: real, y: real): (r: real)
    ensures m == PoolingMax ==> x <= r && y <= r && (r == x || r == y)
  {
    if m == PoolingMax then (if x < y then y else x) else x + y
  }

  /** Start value: the identity of Combine (for max, over values not below Lowest). */
  function Start(m: Mode): (r: real)
    ensures forall x :: m == PoolingMax && Lowest <= x ==> Combine(m, r, x) == x
    ensures forall x :: m == PoolingAverage ==> Combine(m, r, x) == x
  {
    if m == PoolingMax then Lowest else 0.0
  }

  /** Finaliser: max mode ignores the divisor, average mode divides by it. */
  function Final(m: Mode, x: real, y: real): (r: real)
    requires m == PoolingAverage ==> y != 0.0
    ensures m == PoolingMax ==> r == x
    ensures m == PoolingAverage ==> r * y == x
  {
    if m == PoolingMax then x else x / y
  }
}
