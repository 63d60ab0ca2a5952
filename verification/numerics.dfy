/** Numeric helpers: the 0.0001 threshold, the `(int)` cast and 32-bit integers. */
module Numerics {

  /** The threshold `0.0001f` below which a value is treated as zero. */
  const Eps: real := 1.0 / 10000.0

  const Int32Min: int := -0x8000_0000
  const Int32Max: int := 0x7FFF_FFFF

  function Abs(x: real): (r: real)
    ensures r >= 0.0
    ensures r == x || r == -x
  {
    if x < 0.0 then -x else x
  }

  /** The `(int)x` cast: truncation toward zero (overflow of the cast is not modelled). */
  function Trunc(x: real): (n: int)
    ensures 0.0 <= x ==> 0.0 <= n as real <= x < n as real + 1.0
    ensures x < 0.0 ==> n as real - 1.0 < x <= n as real <= 0.0
  {
    if x >= 0.0 then x.Floor else -((-x).Floor)
  }

  /** `x` lies strictly within the threshold of zero. */
  predicate NearZero(x: real) {
    Abs(x) < Eps
  }

  /** `x` lies strictly within the threshold of its truncation toward zero. */
  predicate NearInteger(x: real) {
    Abs(x - Trunc(x) as real) < Eps
  }

  /** A real with no fractional part. */
  predicate IsIntegral(x: real) {
    x == x.Floor as real
  }

  predicate InInt32(x: int) {
    Int32Min <= x <= Int32Max
  }

  /** Two's-complement wrap-around of an unchecked C# `int` operation. */
  function Wrap32(x: int): (r: int)
    ensures InInt32(r)
    ensures (x - r) % 0x1_0000_0000 == 0
    ensures InInt32(x) ==> r == x
  {
    (x - Int32Min) % 0x1_0000_0000 + Int32Min
  }
}
