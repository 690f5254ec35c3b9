/**
 * The bilinear sampler shared by resize.c and rotate.c (the two files carry
 * identical copies of `bilinear`). The sample point (xs, ys) is split into its
 * floor corner (x0, y0) and the next corner (x1, y1) = (x0 + 1, y0 + 1); x0 and
 * y0 are clamped from below only, x1 and y1 from above only. The four corner
 * samples are blended linearly along x, then along y, and the blend is
 * rounded with `lrintf` (nearest, ties to even).
 *
 * Coordinates and weights are exact reals here, not float32.
 */
module Sampler {
  import opened Numeric
  import opened Pixels

  /** The clamped corner indices of one axis: `first` is x0 (or y0), `second` is x1 (or y1). */
  datatype Axis = Axis(first: int, second: int)
  {
    predicate Inside(n: int)
    {
      0 <= first < n && 0 <= second < n
    }
  }

  /**
   * The one-sided clamps of one axis, from the floor `f` of the coordinate and
   * the image extent `n`. Both indices are in bounds exactly when f lies in
   * [-1, n - 1]; then either both corners coincide or they are f and f + 1.
   */
  function Corners(f: int, n: int): (k: Axis)
    ensures n >= 1 ==> (k.Inside(n) <==> -1 <= f <= n - 1)
    ensures k.first >= 0 && k.second <= Max(n - 1, f + 1)
    ensures n >= 1 && -1 <= f <= n - 1 ==> k.second == k.first || (k.first == f && k.second == f + 1)
  {
    Axis(if f < 0 then 0 else f, if f + 1 >= n then n - 1 else f + 1)
  }

  /** Channel `c` can be sampled at (xs, ys): every clamped corner lies inside the image. */
  predicate Samplable(img: Image, c: nat, xs: real, ys: real)
  {
    && img.Valid()
    && c < img.channels
    && img.width >= 1 && img.height >= 1
    && -1 <= xs.Floor <= img.width - 1
    && -1 <= ys.Floor <= img.height - 1
  }

  /** A point inside [0, w) x [0, h) can be sampled (the gate of `worker_rotate`). */
  lemma InsideSamplable(img: Image, c: nat, xs: real, ys: real)
    requires img.Valid() && c < img.channels
    requires 0.0 <= xs < img.width as real && 0.0 <= ys < img.height as real
    ensures Samplable(img, c, xs, ys)
  {
    assert xs.Floor <= img.width - 1 by {
      assert (xs.Floor as real) <= xs;
    }
    assert ys.Floor <= img.height - 1 by {
      assert (ys.Floor as real) <= ys;
    }
  }

  /** The four corner samples of (xs, ys) in channel c. */
  datatype Quad = Quad(v00: Byte, v10: Byte, v01: Byte, v11: Byte)
  {
    function Lowest(): int
    {
      Min(Min(v00, v10), Min(v01, v11))
    }

    function Highest(): int
    {
      Max(Max(v00, v10), Max(v01, v11))
    }
  }

  function CornerSamples(img: Image, c: nat, xs: real, ys: real): (q: Quad)
    requires Samplable(img, c, xs, ys)
  {
    var kx := Corners(xs.Floor, img.width);
    var ky := Corners(ys.Floor, img.height);
    Quad(img.px[ky.first][kx.first][c], img.px[ky.first][kx.second][c],
         img.px[ky.second][kx.first][c], img.px[ky.second][kx.second][c])
  }

  /** Linear blend of a and b with weight t on b. */
  function Lerp(a: real, b: real, t: real): real
  {
    a * (1.0 - t) + b * t
  }

  /**
   * A blend of two values of [lo, hi] stays in [lo, hi] when the weight lies
   * in [0, 1], and for any weight when the two values coincide.
   */
  lemma LerpBetween(a: real, b: real, t: real, lo: real, hi: real)
    requires lo <= a <= hi && lo <= b <= hi
    requires a == b || 0.0 <= t <= 1.0
    ensures lo <= Lerp(a, b, t) <= hi
  {
    if a == b {
      LerpSame(a, t);
    } else if a < b {
      LerpUp(a, b, t);
    } else {
      LerpSwap(a, b, t);
      LerpUp(b, a, 1.0 - t);
    }
  }

  /** Blending a value with itself gives it back, whatever the weight. */
  lemma LerpSame(a: real, t: real)
    ensures Lerp(a, a, t) == a
  {
    LerpStep(a, a, t);
    assert (a - a) * t == 0.0 * t;
  }

  /** With a <= b and a weight in [0, 1] the blend lies in [a, b]. */
  lemma LerpUp(a: real, b: real, t: real)
    requires a <= b && 0.0 <= t <= 1.0
    ensures a <= Lerp(a, b, t) <= b
  {
    var d := b - a;
    MulBelow(d, t);
    LerpStep(a, b, t);
    assert Lerp(a, b, t) == a + d * t;
  }

  /** Swapping the two values swaps the weights. */
  lemma LerpSwap(a: real, b: real, t: real)
    ensures Lerp(a, b, t) == Lerp(b, a, 1.0 - t)
  {
    assert 1.0 - (1.0 - t) == t;
  }

  /** A blend moves from a towards b by the fraction t of their difference. */
  lemma LerpStep(a: real, b: real, t: real)
    ensures Lerp(a, b, t) == a + (b - a) * t
  {
    assert a * (1.0 - t) == a - a * t;
    assert (b - a) * t == b * t - a * t;
  }

  /** A weight of [0, 1] scales a non-negative value into [0, that value]. */
  lemma MulBelow(d: real, t: real)
    requires d >= 0.0 && 0.0 <= t <= 1.0
    ensures 0.0 <= d * t <= d
  {
    MulNonneg(d, t);
    MulNonneg(d, 1.0 - t);
    assert d * (1.0 - t) == d - d * t;
  }

  lemma MulNonneg(a: real, b: real)
    requires a >= 0.0 && b >= 0.0
    ensures a * b >= 0.0
  {
  }

  /** A blend with weight 0 is its first value. */
  lemma LerpAtZero(a: real, b: real)
    ensures Lerp(a, b, 0.0) == a
  {
  }

  /** The unrounded blend of the four corners, as `bilinear` computes it before `lrintf`. */
  function Blend(img: Image, c: nat, xs: real, ys: real): (v: real)
    requires Samplable(img, c, xs, ys)
    ensures var q := CornerSamples(img, c, xs, ys); q.Lowest() as real <= v <= q.Highest() as real
  {
    var kx := Corners(xs.Floor, img.width);
    var ky := Corners(ys.Floor, img.height);
    var q := CornerSamples(img, c, xs, ys);
    var tx := xs - kx.first as real;
    var ty := ys - ky.first as real;
    var v0 := Lerp(q.v00 as real, q.v10 as real, tx);
    var v1 := Lerp(q.v01 as real, q.v11 as real, tx);
    BlendBetween(q, xs, ys, kx, ky, tx, ty);
    Lerp(v0, v1, ty)
  }

  /** Both blending steps of `Blend` stay between the lowest and the highest corner. */
  lemma BlendBetween(q: Quad, xs: real, ys: real, kx: Axis, ky: Axis, tx: real, ty: real)
    requires kx.second == kx.first || (kx.first == xs.Floor && kx.second == kx.first + 1)
    requires ky.second == ky.first || (ky.first == ys.Floor && ky.second == ky.first + 1)
    requires kx.second == kx.first ==> q.v10 == q.v00 && q.v11 == q.v01
    requires ky.second == ky.first ==> q.v01 == q.v00 && q.v11 == q.v10
    requires tx == xs - kx.first as real && ty == ys - ky.first as real
    ensures var lo, hi := q.Lowest() as real, q.Highest() as real;
            lo <= Lerp(Lerp(q.v00 as real, q.v10 as real, tx), Lerp(q.v01 as real, q.v11 as real, tx), ty) <= hi
  {
    var lo, hi := q.Lowest() as real, q.Highest() as real;
    if kx.second != kx.first {
      assert 0.0 <= tx <= 1.0 by {
        assert xs.Floor as real <= xs < xs.Floor as real + 1.0;
      }
    }
    if ky.second != ky.first {
      assert 0.0 <= ty <= 1.0 by {
        assert ys.Floor as real <= ys < ys.Floor as real + 1.0;
      }
    }
    LerpBetween(q.v00 as real, q.v10 as real, tx, lo, hi);
    LerpBetween(q.v01 as real, q.v11 as real, tx, lo, hi);
    LerpBetween(Lerp(q.v00 as real, q.v10 as real, tx), Lerp(q.v01 as real, q.v11 as real, tx), ty, lo, hi);
  }

  /** Rounding a real between two integers never leaves them. */
  lemma RoundBetween(v: real, lo: int, hi: int)
    requires lo as real <= v <= hi as real
    ensures lo <= RoundHalfEven(v) <= hi
  {
  }

  /**
   * `bilinear`: the rounded blend of the four clamped corners. It never
   * leaves the range spanned by those corners, so it is always a byte.
   */
  function Bilinear(img: Image, c: nat, xs: real, ys: real): (v: Byte)
    requires Samplable(img, c, xs, ys)
    ensures var q := CornerSamples(img, c, xs, ys); q.Lowest() <= v <= q.Highest()
  {
    var q := CornerSamples(img, c, xs, ys);
    RoundBetween(Blend(img, c, xs, ys), q.Lowest(), q.Highest());
    RoundHalfEven(Blend(img, c, xs, ys))
  }

  /** Sampling exactly at a pixel returns that pixel's sample. */
  lemma BilinearAtPixel(img: Image, c: nat, x: nat, y: nat)
    requires img.Valid() && c < img.channels && x < img.width && y < img.height
    ensures Samplable(img, c, x as real, y as real)
    ensures Bilinear(img, c, x as real, y as real) == img.px[y][x][c]
  {
    var xs, ys := x as real, y as real;
    assert xs.Floor == x && ys.Floor == y;
    var q := CornerSamples(img, c, xs, ys);
    var kx := Corners(xs.Floor, img.width);
    var ky := Corners(ys.Floor, img.height);
    assert kx.first == x && ky.first == y;
    LerpAtZero(q.v00 as real, q.v10 as real);
    LerpAtZero(q.v01 as real, q.v11 as real);
    LerpAtZero(Lerp(q.v00 as real, q.v10 as real, 0.0), Lerp(q.v01 as real, q.v11 as real, 0.0));
    assert Blend(img, c, xs, ys) == q.v00 as real;
    RoundIntegral(q.v00);
  }
}
