/**
 Integer conversions of real numbers used by the scripts: `math.ceil` and
 Python's built-in `round`, which rounds halves to the even neighbour.
 */
module Numerics {

  /** `math.ceil(x)`: the least integer not below `x`. */
  function Ceil(x: real): (c: int)
    ensures c as real - 1.0 < x <= c as real
  {
    -((-x).Floor)
  }

  /** Python `round(x)` on a number: nearest integer, ties to the even one. */
  function RoundHalfEven(x: real): (r: int)
    ensures x - 0.5 <= r as real <= x + 0.5
    ensures (x - x.Floor as real == 0.5) ==> r % 2 == 0
  {
    var f := x.Floor;
    var frac := x - f as real;
    if frac < 0.5 then f
    else if frac > 0.5 then f + 1
    else if f % 2 == 0 then f else f + 1
  }

  /** `round` never reverses the order of its arguments. */
  lemma RoundMonotone(x: real, y: real)
    requires x <= y
    ensures RoundHalfEven(x) <= RoundHalfEven(y)
  {
  }

  /** `round` leaves an integral value unchanged. */
  lemma RoundOfInt(n: int)
    ensures RoundHalfEven(n as real) == n
  {
  }
}
