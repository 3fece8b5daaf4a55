/**
 * Bucket selection of `HashDictionary`: `Math.Abs(key.GetHashCode() % SegmentCount)`.
 * The string hash itself is not modelled; it reaches the table as a value of the
 * .NET `int` type, whose range `int32` gives.
 */
module Hashing {

  /** The range of a .NET `int`, the type `string.GetHashCode` returns. */
  newtype int32 = x: int | -0x8000_0000 <= x < 0x8000_0000

  /** The fixed number of segments (buckets) of a table. */
  const SegmentCount: nat := 10

  function Abs(x: int): (r: nat)
    ensures r == x || r == -x
  {
    if x < 0 then -x else x
  }

  /** C#'s `/` on integers: the quotient truncated toward zero. */
  function TruncDiv(a: int, n: int): int
    requires n > 0
  {
    if a >= 0 then a / n else -((-a) / n)
  }

  /**
   * C#'s `%` on integers: the remainder that goes with `TruncDiv`. It has the
   * sign of the dividend and a magnitude below the divisor.
   */
  function TruncMod(a: int, n: int): (r: int)
    requires n > 0
    ensures -n < r < n
    ensures a >= 0 ==> r >= 0
    ensures a <= 0 ==> r <= 0
    ensures a == n * TruncDiv(a, n) + r
  {
    if a >= 0 then a % n else -((-a) % n)
  }

  /**
   * `HashFunction`: the remainder is taken first and its absolute value after,
   * so `Math.Abs` only ever sees a value in (-SegmentCount, SegmentCount) and
   * cannot overflow. The index is in range, and it equals the textbook
   * `|h| mod SegmentCount`.
   */
  function BucketIndex(h: int32): (r: nat)
    ensures r < SegmentCount
    ensures r == Abs(h as int) % SegmentCount
  {
    Abs(TruncMod(h as int, SegmentCount))
  }
}
