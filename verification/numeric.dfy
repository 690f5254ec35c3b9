/**
 * Integer and rounding helpers shared by the image kernels: the 8-bit sample
 * type, the byte clamp (`clampi`, identical in sobel.c and conv.c), the
 * integer square root that stands in for `(int)sqrt(n)`, and the two
 * rounding modes of the C library (`roundf` and `lrintf`).
 */
module Numeric {

  /** One channel sample of an 8-bit image. */
  type Byte = b: int | 0 <= b < 256

  function Abs(v: int): nat
  {
    if v < 0 then -v else v
  }

  function Min(a: int, b: int): int
  {
    if a <= b then a else b
  }

  function Max(a: int, b: int): int
  {
    if a <= b then b else a
  }

  /** Distance between two integers on the number line. */
  function Dist(a: int, b: int): nat
  {
    if a <= b then b - a else a - b
  }

  /** `r` is a point of [lo, hi] at least as close to `v` as any other point of it. */
  ghost predicate IsNearest(r: int, lo: int, hi: int, v: int)
  {
    && lo <= r <= hi
    && forall b :: lo <= b <= hi ==> Dist(r, v) <= Dist(b, v)
  }

  /** `clampi`: saturate an int into the byte range. */
  function Clamp255(v: int): (r: Byte)
    ensures IsNearest(r, 0, 255, v)
    ensures 0 <= v <= 255 ==> r == v
  {
    if v < 0 then 0 else if v > 255 then 255 else v
  }

  /** Largest natural number whose square does not exceed `n`. */
  function ISqrt(n: nat): (r: nat)
    ensures r * r <= n < (r + 1) * (r + 1)
    decreases n
  {
    if n < 4 then
      (if n == 0 then 0 else 1)
    else
      var s := 2 * ISqrt(n / 4);
      ISqrtStep(n, s / 2);
      if (s + 1) * (s + 1) <= n then s + 1 else s
  }

  /** Doubling the root of n / 4 brackets the root of n from below. */
  lemma ISqrtStep(n: nat, t: nat)
    requires t * t <= n / 4 < (t + 1) * (t + 1)
    ensures (2 * t) * (2 * t) <= n < (2 * t + 2) * (2 * t + 2)
  {
    var m := n / 4;
    assert (2 * t) * (2 * t) == 4 * (t * t);
    assert (2 * t + 2) * (2 * t + 2) == 4 * ((t + 1) * (t + 1));
    assert (t + 1) * (t + 1) >= m + 1;
    assert 4 * m <= n < 4 * m + 4;
  }

  /** `roundf`: nearest integer, halfway cases away from zero. */
  function RoundHalfAway(v: real): (r: int)
    ensures (r as real) - 0.5 <= v <= (r as real) + 0.5
    ensures v == (r as real) - 0.5 ==> v > 0.0
    ensures v == (r as real) + 0.5 ==> v < 0.0
  {
    if v >= 0.0 then (v + 0.5).Floor else -((0.5 - v).Floor)
  }

  /** `lrintf` in the default rounding mode: nearest integer, halfway cases to even. */
  function RoundHalfEven(v: real): (r: int)
    ensures (r as real) - 0.5 <= v <= (r as real) + 0.5
    ensures v == (r as real) - 0.5 || v == (r as real) + 0.5 ==> r % 2 == 0
  {
    var f := v.Floor;
    var d := v - f as real;
    if d < 0.5 then f
    else if d > 0.5 then f + 1
    else if f % 2 == 0 then f
    else f + 1
  }

  /** Rounding an exact integer returns it, under either rounding mode. */
  lemma RoundIntegral(n: int)
    ensures RoundHalfAway(n as real) == n
    ensures RoundHalfEven(n as real) == n
  {
  }
}
