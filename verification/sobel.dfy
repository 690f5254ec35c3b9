/**
 * Sobel edge detection (sobel.c). For every pixel of its rows, the worker
 * builds the zero-padded 3x3 gray neighbourhood (`makeOpMem`), takes the
 * absolute "convolution" of it with the two fixed operators, whose loop
 * reads the kernel back to front (`convolution`), and writes the truncated
 * gradient magnitude, capped at 255, to channel 0 (single-channel images) or
 * to channels 0, 1 and 2 (images of three or more channels).
 */
module Sobel {
  import opened Numeric
  import opened Pixels
  import opened Partition
  import opened Dispatch

  /**
   * The luminance of `to_gray` for pixels of three or more channels: a fixed
   * float-weighted sum of the first three channels, truncated to a byte.
   * The float arithmetic is not modelled; the function is a parameter.
   */
  type Luma = (Byte, Byte, Byte) -> Byte

  /** Channel counts the worker handles: one, or three and more. */
  predicate SobelChannels(ch: nat)
  {
    ch == 1 || ch >= 3
  }

  /** `to_gray`: the sample itself for one channel, the luminance otherwise. */
  function ToGray(p: Pixel, ch: nat, lum: Luma): (g: Byte)
    requires |p| == ch && SobelChannels(ch)
    ensures ch == 1 ==> g == p[0]
    ensures ch >= 3 ==> g == lum(p[0], p[1], p[2])
  {
    if ch == 1 then p[0] else lum(p[0], p[1], p[2])
  }

  /** Reference zero padding: the gray level at (y, x) inside the image, 0 outside it. */
  function PaddedGray(img: Image, lum: Luma, y: int, x: int): Byte
    requires img.Valid() && SobelChannels(img.channels)
  {
    if 0 <= y < img.height && 0 <= x < img.width then ToGray(img.px[y][x], img.channels, lum) else 0
  }

  /** Reference neighbourhood: slot k holds the padded gray of (y + k / 3 - 1, x + k % 3 - 1). */
  function Window(img: Image, lum: Luma, y: int, x: int): (m: seq<Byte>)
    requires img.Valid() && SobelChannels(img.channels)
    ensures |m| == 9
  {
    seq(9, k requires 0 <= k < 9 => PaddedGray(img, lum, y + k / 3 - 1, x + k % 3 - 1))
  }

  /**
   * One row of `makeOpMem`: the gray levels at columns x - 1, x and x + 1 of
   * row yy, each replaced by 0 when the row test (`inside`) or the column's
   * own edge test puts it outside the image. When the row test is exact, the
   * row is the zero-padded one.
   */
  function OpMemRow(img: Image, lum: Luma, x: nat, yy: int, inside: bool): (r: seq<Byte>)
    requires img.Valid() && SobelChannels(img.channels) && x < img.width
    requires inside ==> 0 <= yy < img.height
    ensures inside == (0 <= yy < img.height) ==>
              r == [PaddedGray(img, lum, yy, x - 1), PaddedGray(img, lum, yy, x), PaddedGray(img, lum, yy, x + 1)]
  {
    var ch := img.channels;
    var left := x - 1 < 0;
    var right := x + 1 >= img.width;
    [
      if inside && !left then ToGray(img.px[yy][x - 1], ch, lum) else 0,
      if inside then ToGray(img.px[yy][x], ch, lum) else 0,
      if inside && !right then ToGray(img.px[yy][x + 1], ch, lum) else 0
    ]
  }

  /** The reference window, row by row. */
  lemma WindowRows(img: Image, lum: Luma, y: int, x: int)
    requires img.Valid() && SobelChannels(img.channels)
    ensures Window(img, lum, y, x) ==
              [PaddedGray(img, lum, y - 1, x - 1), PaddedGray(img, lum, y - 1, x), PaddedGray(img, lum, y - 1, x + 1)]
              + [PaddedGray(img, lum, y, x - 1), PaddedGray(img, lum, y, x), PaddedGray(img, lum, y, x + 1)]
              + [PaddedGray(img, lum, y + 1, x - 1), PaddedGray(img, lum, y + 1, x), PaddedGray(img, lum, y + 1, x + 1)]
  {
  }

  /**
   * `makeOpMem`: the 3x3 neighbourhood of (x, y) in row-major order, built
   * from four one-sided edge tests. For an in-image centre these agree with
   * full bounds checks, so the result is the zero-padded window.
   */
  function OpMem(img: Image, lum: Luma, x: nat, y: nat): (m: seq<Byte>)
    requires img.Valid() && SobelChannels(img.channels)
    requires x < img.width && y < img.height
    ensures m == Window(img, lum, y, x)
    ensures m[4] == ToGray(img.px[y][x], img.channels, lum)
  {
    var bottom := y - 1 < 0;
    var top := y + 1 >= img.height;
    WindowRows(img, lum, y, x);
    OpMemRow(img, lum, x, y - 1, !bottom) + OpMemRow(img, lum, x, y, true) + OpMemRow(img, lum, x, y + 1, !top)
  }

  /** Horizontal operator `sobel_h`. */
  const SobelH: seq<int> := [-1, 0, 1, -2, 0, 2, -1, 0, 1]
  /** Vertical operator `sobel_v` (top row positive). */
  const SobelV: seq<int> := [1, 2, 1, 0, 0, 0, -1, -2, -1]

  /** Sum of X[i] * Y[|Y| - 1 - i] over the first n indices. */
  function RevDotPrefix(X: seq<int>, Y: seq<int>, n: nat): int
    requires n <= |X| == |Y|
  {
    if n == 0 then 0 else RevDotPrefix(X, Y, n - 1) + X[n - 1] * Y[|Y| - n]
  }

  /** `convolution`: the input against the kernel read back to front. */
  function Convolution(X: seq<int>, Y: seq<int>): int
    requires |X| == |Y|
  {
    RevDotPrefix(X, Y, |X|)
  }

  /** Sum of X[i] * K[i] over the first n indices. */
  function DotPrefix(X: seq<int>, K: seq<int>, n: nat): int
    requires n <= |X| == |K|
  {
    if n == 0 then 0 else DotPrefix(X, K, n - 1) + X[n - 1] * K[n - 1]
  }

  /** Reference correlation: the plain dot product of a window with a kernel. */
  function Dot(X: seq<int>, K: seq<int>): int
    requires |X| == |K|
  {
    DotPrefix(X, K, |X|)
  }

  /** Reading the kernel back to front negates it. */
  predicate ReversalNegates(K: seq<int>)
  {
    forall i :: 0 <= i < |K| ==> K[|K| - 1 - i] == -K[i]
  }

  lemma SobelKernelsReverseToNegation()
    ensures ReversalNegates(SobelH) && ReversalNegates(SobelV)
  {
  }

  /** For a kernel that reversal negates, convolution is the negated correlation. */
  lemma {:induction false} ConvolutionNegatesDot(X: seq<int>, Y: seq<int>, n: nat)
    requires n <= |X| == |Y|
    requires ReversalNegates(Y)
    ensures RevDotPrefix(X, Y, n) == -DotPrefix(X, Y, n)
  {
    if n > 0 {
      ConvolutionNegatesDot(X, Y, n - 1);
      assert Y[|Y| - n] == -Y[n - 1] by {
        assert Y[|Y| - 1 - (n - 1)] == -Y[n - 1];
      }
    }
  }

  /** A dot product of nine terms, written out. */
  lemma Dot9(X: seq<int>, K: seq<int>)
    requires |X| == |K| == 9
    ensures Dot(X, K) == X[0] * K[0] + X[1] * K[1] + X[2] * K[2] + X[3] * K[3] + X[4] * K[4]
                       + X[5] * K[5] + X[6] * K[6] + X[7] * K[7] + X[8] * K[8]
  {
    assert DotPrefix(X, K, 9) == DotPrefix(X, K, 8) + X[8] * K[8];
    assert DotPrefix(X, K, 8) == DotPrefix(X, K, 7) + X[7] * K[7];
    assert DotPrefix(X, K, 7) == DotPrefix(X, K, 6) + X[6] * K[6];
    assert DotPrefix(X, K, 6) == DotPrefix(X, K, 5) + X[5] * K[5];
    assert DotPrefix(X, K, 5) == DotPrefix(X, K, 4) + X[4] * K[4];
    assert DotPrefix(X, K, 4) == DotPrefix(X, K, 3) + X[3] * K[3];
    assert DotPrefix(X, K, 3) == DotPrefix(X, K, 2) + X[2] * K[2];
    assert DotPrefix(X, K, 2) == DotPrefix(X, K, 1) + X[1] * K[1];
    assert DotPrefix(X, K, 1) == X[0] * K[0];
  }

  /** Correlation with the horizontal operator, written out. */
  lemma DotSobelH(X: seq<int>)
    requires |X| == 9
    ensures Dot(X, SobelH) == -X[0] + X[2] - 2 * X[3] + 2 * X[5] - X[6] + X[8]
  {
    Dot9(X, SobelH);
  }

  /** Correlation with the vertical operator, written out. */
  lemma DotSobelV(X: seq<int>)
    requires |X| == 9
    ensures Dot(X, SobelV) == X[0] + 2 * X[1] + X[2] - X[6] - 2 * X[7] - X[8]
  {
    Dot9(X, SobelV);
  }

  /**
   * The gradient magnitude: floor(sqrt(gx * gx + gy * gy)), truncated and
   * not rounded, then capped at 255.
   */
  function Magnitude(gx: nat, gy: nat): (v: Byte)
    ensures v * v <= gx * gx + gy * gy
    ensures v < 255 ==> gx * gx + gy * gy < (v + 1) * (v + 1)
  {
    var m := ISqrt(gx * gx + gy * gy);
    if m > 255 then 255 else m
  }

  /** Squaring is monotone on the naturals. */
  lemma SquareMonotone(a: nat, b: nat)
    requires a <= b
    ensures a * a <= b * b
  {
    assert b * b == a * a + (b - a) * (a + b);
  }

  /** A byte bracketed like a capped integer square root below the cap is that root. */
  lemma CappedRootIs(v: nat, n: nat, r: nat)
    requires v * v <= n
    requires v < 255 ==> n < (v + 1) * (v + 1)
    requires r < 255
    requires r * r <= n
    requires n < (r + 1) * (r + 1)
    ensures v == r
  {
    if v < r {
      SquareMonotone(v + 1, r);
    } else if v > r {
      SquareMonotone(r + 1, v);
    }
  }

  /** Absolute values square like the values themselves. */
  lemma AbsSquare(d: int)
    ensures Abs(d) * Abs(d) == d * d
  {
  }

  /**
   * The edge value `worker_sobel` computes at (x, y): with gx and gy the
   * correlations of the zero-padded gray window with the two operators,
   * v is the largest byte whose square does not exceed gx^2 + gy^2.
   */
  function SobelValue(img: Image, lum: Luma, y: nat, x: nat): (v: Byte)
    requires img.Valid() && SobelChannels(img.channels)
    requires x < img.width && y < img.height
    ensures var w := Window(img, lum, y, x);
            var n := Dot(w, SobelH) * Dot(w, SobelH) + Dot(w, SobelV) * Dot(w, SobelV);
            v * v <= n && (v < 255 ==> n < (v + 1) * (v + 1))
  {
    var m := OpMem(img, lum, x, y);
    var gx := Abs(Convolution(m, SobelH));
    var gy := Abs(Convolution(m, SobelV));
    SobelKernelsReverseToNegation();
    ConvolutionNegatesDot(m, SobelH, 9);
    ConvolutionNegatesDot(m, SobelV, 9);
    AbsSquare(Dot(m, SobelH));
    AbsSquare(Dot(m, SobelV));
    Magnitude(gx, gy)
  }

  /**
   * For a one-channel image the window holds the raw samples, zero-padded:
   * no luminance weighting is applied on the grey path of `to_gray`.
   */
  lemma GreyWindowIsRaw(img: Image, lum: Luma, y: int, x: int, k: nat)
    requires img.Valid() && img.channels == 1 && k < 9
    ensures var yy, xx := y + k / 3 - 1, x + k % 3 - 1;
            Window(img, lum, y, x)[k] == if 0 <= yy < img.height && 0 <= xx < img.width then img.px[yy][xx][0] else 0
  {
  }

  /** The edge value of a one-channel image does not depend on the luminance weighting. */
  lemma GreyIgnoresLuma(img: Image, lum: Luma, lum': Luma, y: nat, x: nat)
    requires img.Valid() && img.channels == 1
    requires x < img.width && y < img.height
    ensures SobelValue(img, lum, y, x) == SobelValue(img, lum', y, x)
  {
    forall k | 0 <= k < 9
      ensures Window(img, lum, y, x)[k] == Window(img, lum', y, x)[k]
    {
      GreyWindowIsRaw(img, lum, y, x, k);
      GreyWindowIsRaw(img, lum', y, x, k);
    }
    assert Window(img, lum, y, x) == Window(img, lum', y, x);
  }

  /** Two images agree on the first three channels of every pixel. */
  predicate SameColour(a: Image, b: Image)
    requires a.Valid() && b.Valid() && a.SameShape(b) && a.channels >= 3
  {
    forall y, x, c :: 0 <= y < a.height && 0 <= x < a.width && 0 <= c < 3 ==> a.px[y][x][c] == b.px[y][x][c]
  }

  /**
   * The luminance of a colour pixel reads its first three channels only, so
   * images that agree there (alpha aside) have the same edge values.
   */
  lemma ColourIgnoresExtraChannels(a: Image, b: Image, lum: Luma, y: nat, x: nat)
    requires a.Valid() && b.Valid() && a.SameShape(b) && a.channels >= 3
    requires SameColour(a, b)
    requires x < a.width && y < a.height
    ensures SobelValue(a, lum, y, x) == SobelValue(b, lum, y, x)
  {
    forall k | 0 <= k < 9
      ensures Window(a, lum, y, x)[k] == Window(b, lum, y, x)[k]
    {
      var yy, xx := y + k / 3 - 1, x + k % 3 - 1;
      if 0 <= yy < a.height && 0 <= xx < a.width {
        assert a.px[yy][xx][0] == b.px[yy][xx][0];
        assert a.px[yy][xx][1] == b.px[yy][xx][1];
        assert a.px[yy][xx][2] == b.px[yy][xx][2];
      }
    }
    assert Window(a, lum, y, x) == Window(b, lum, y, x);
  }

  /** The edge value lands on channel 0, and also on channels 1 and 2 of a colour pixel. */
  function WriteEdge(p: Pixel, ch: nat, v: Byte): (q: Pixel)
    requires |p| == ch && SobelChannels(ch)
    ensures |q| == ch
    ensures forall c :: 0 <= c < ch ==> q[c] == if c < 3 then v else p[c]
  {
    if ch == 1 then p[0 := v] else p[0 := v][1 := v][2 := v]
  }

  /** The row `worker_sobel` leaves at index y. */
  function SobelRow(img: Image, lum: Luma, y: nat, row: Row): (r: Row)
    requires img.Valid() && SobelChannels(img.channels) && y < img.height
    requires RowShaped(row, img.width, img.channels)
    ensures RowShaped(r, img.width, img.channels)
    ensures forall x, c :: 0 <= x < img.width && 0 <= c < img.channels ==>
              r[x][c] == if c < 3 then SobelValue(img, lum, y, x) else row[x][c]
  {
    seq(img.width, x requires 0 <= x < img.width =>
      WriteEdge(row[x], img.channels, SobelValue(img, lum, y, x)))
  }

  /** `worker_sobel` as a row rewrite for the dispatcher. */
  function SobelWork(img: Image, lum: Luma): RowWork
    requires img.Valid() && SobelChannels(img.channels)
  {
    (y: nat, row: Row) =>
      if y < img.height && RowShaped(row, img.width, img.channels) then SobelRow(img, lum, y, row) else row
  }

  /**
   * `worker_sobel` over the rows [r.lo, r.hi): those rows get the edge value
   * on their first min(channels, 3) channels, everything else is untouched.
   */
  function SobelWorker(img: Image, lum: Luma, r: Range, dst: Image): (out: Image)
    requires img.Valid() && dst.Valid() && img.SameShape(dst) && SobelChannels(img.channels)
    ensures out.Valid() && out.SameShape(dst)
    ensures forall y, x, c :: 0 <= y < out.height && 0 <= x < out.width && 0 <= c < out.channels ==>
              out.px[y][x][c] == if r.Contains(y) && c < 3 then SobelValue(img, lum, y, x) else dst.px[y][x][c]
  {
    SobelRows(img, lum, r, dst);
    dst.(px := RunWorker(SobelWork(img, lum), r, dst.px))
  }

  /** The rows [r.lo, r.hi) rewritten by the Sobel worker, the others kept. */
  lemma SobelRows(img: Image, lum: Luma, r: Range, dst: Image)
    requires img.Valid() && dst.Valid() && img.SameShape(dst) && SobelChannels(img.channels)
    ensures dst.(px := RunWorker(SobelWork(img, lum), r, dst.px)).Valid()
    ensures forall y, x, c :: 0 <= y < dst.height && 0 <= x < dst.width && 0 <= c < dst.channels ==>
              RunWorker(SobelWork(img, lum), r, dst.px)[y][x][c] ==
                if r.Contains(y) && c < 3 then SobelValue(img, lum, y, x) else dst.px[y][x][c]
  {
    var g := RunWorker(SobelWork(img, lum), r, dst.px);
    forall y | 0 <= y < dst.height
      ensures g[y] == if r.Contains(y) then SobelRow(img, lum, y, dst.px[y]) else dst.px[y]
    {
    }
  }

  /**
   * `sobel_concurrent`: for every thread count the destination ends up with
   * the edge value of every pixel on its first min(channels, 3) channels, and
   * its other channels as they were.
   */
  function SobelConcurrent(img: Image, lum: Luma, n: int, dst: Image): (out: Image)
    requires img.Valid() && dst.Valid() && img.SameShape(dst) && SobelChannels(img.channels)
    ensures out.Valid() && out.SameShape(dst)
    ensures forall y, x, c :: 0 <= y < out.height && 0 <= x < out.width && 0 <= c < out.channels ==>
              out.px[y][x][c] == if c < 3 then SobelValue(img, lum, y, x) else dst.px[y][x][c]
  {
    SobelEverywhere(img, lum, dst);
    dst.(px := LaunchByRows(SobelWork(img, lum), n, dst.px))
  }

  /** Every row rewritten once by the Sobel worker: the edge value on channels below 3, the rest kept. */
  lemma SobelEverywhere(img: Image, lum: Luma, dst: Image)
    requires img.Valid() && dst.Valid() && img.SameShape(dst) && SobelChannels(img.channels)
    ensures dst.(px := Everywhere(SobelWork(img, lum), dst.px)).Valid()
    ensures forall y, x, c :: 0 <= y < dst.height && 0 <= x < dst.width && 0 <= c < dst.channels ==>
              Everywhere(SobelWork(img, lum), dst.px)[y][x][c] == if c < 3 then SobelValue(img, lum, y, x) else dst.px[y][x][c]
  {
    var g := Everywhere(SobelWork(img, lum), dst.px);
    forall y | 0 <= y < dst.height
      ensures g[y] == SobelRow(img, lum, y, dst.px[y])
    {
    }
  }

  /** Both operators sum to zero, so a flat interior neighbourhood has no gradient. */
  lemma SobelUniformInterior(img: Image, lum: Luma, g: Byte, y: nat, x: nat)
    requires img.Valid() && SobelChannels(img.channels)
    requires forall yy, xx :: 0 <= yy < img.height && 0 <= xx < img.width ==>
               ToGray(img.px[yy][xx], img.channels, lum) == g
    requires 1 <= y < img.height - 1 && 1 <= x < img.width - 1
    ensures SobelValue(img, lum, y, x) == 0
  {
    var w := Window(img, lum, y, x);
    assert w[0] == g && w[1] == g && w[2] == g by {
      assert w[0] == PaddedGray(img, lum, y - 1, x - 1);
      assert w[1] == PaddedGray(img, lum, y - 1, x);
      assert w[2] == PaddedGray(img, lum, y - 1, x + 1);
    }
    assert w[3] == g && w[4] == g && w[5] == g by {
      assert w[3] == PaddedGray(img, lum, y, x - 1);
      assert w[4] == PaddedGray(img, lum, y, x);
      assert w[5] == PaddedGray(img, lum, y, x + 1);
    }
    assert w[6] == g && w[7] == g && w[8] == g by {
      assert w[6] == PaddedGray(img, lum, y + 1, x - 1);
      assert w[7] == PaddedGray(img, lum, y + 1, x);
      assert w[8] == PaddedGray(img, lum, y + 1, x + 1);
    }
    DotSobelH(w);
    DotSobelV(w);
    var v: int := SobelValue(img, lum, y, x);
    assert v * v <= 0;
  }

  /** A 3x3 single-channel image with every sample 10. */
  function Flat10(): (img: Image)
    ensures img.Valid()
  {
    Image(3, 3, 1, seq(3, y => seq(3, x => [10])))
  }

  /**
   * Zero padding makes the border of a flat image an edge: the corner of a
   * flat 3x3 image of value 10 gets gx = 30, gy = -30 and value floor(sqrt(1800)) = 42.
   */
  lemma SobelUniformCorner(lum: Luma)
    ensures SobelValue(Flat10(), lum, 0, 0) == 42
  {
    var img := Flat10();
    var w := Window(img, lum, 0, 0);
    assert w == [0, 0, 0, 0, 10, 10, 0, 10, 10];
    DotSobelH(w);
    DotSobelV(w);
    CappedRootIs(SobelValue(img, lum, 0, 0), 1800, 42);
  }

  /** The 4x4 single-channel ramp with value 10 * y + x at (x, y). */
  function Ramp(): (img: Image)
    ensures img.Valid()
  {
    Image(4, 4, 1, seq(4, y requires 0 <= y < 4 => seq(4, x requires 0 <= x < 4 => [10 * y + x])))
  }

  /**
   * On the ramp, pixel (1, 1) gets gx = |conv| = 8, gy = 80 and the edge
   * value floor(sqrt(6464)) = 80.
   */
  lemma RampWindow(lum: Luma)
    ensures OpMem(Ramp(), lum, 1, 1) == [0, 1, 2, 10, 11, 12, 20, 21, 22]
  {
    var img := Ramp();
    assert img.px[0] == [[0], [1], [2], [3]];
    assert img.px[1] == [[10], [11], [12], [13]];
    assert img.px[2] == [[20], [21], [22], [23]];
  }

  /** The two correlations at (1, 1) of the ramp. */
  lemma RampCorrelations(lum: Luma)
    ensures Dot(Window(Ramp(), lum, 1, 1), SobelH) == 8
    ensures Dot(Window(Ramp(), lum, 1, 1), SobelV) == -80
  {
    RampWindow(lum);
    var w := Window(Ramp(), lum, 1, 1);
    assert w == [0, 1, 2, 10, 11, 12, 20, 21, 22];
    DotSobelH(w);
    DotSobelV(w);
  }

  lemma SobelRampPixel(lum: Luma)
    ensures Abs(Convolution(OpMem(Ramp(), lum, 1, 1), SobelH)) == 8
    ensures Abs(Convolution(OpMem(Ramp(), lum, 1, 1), SobelV)) == 80
    ensures SobelValue(Ramp(), lum, 1, 1) == 80
  {
    var m := OpMem(Ramp(), lum, 1, 1);
    RampCorrelations(lum);
    SobelKernelsReverseToNegation();
    ConvolutionNegatesDot(m, SobelH, 9);
    ConvolutionNegatesDot(m, SobelV, 9);
    var w := Window(Ramp(), lum, 1, 1);
    var v: int := SobelValue(Ramp(), lum, 1, 1);
    assert Dot(w, SobelH) * Dot(w, SobelH) + Dot(w, SobelV) * Dot(w, SobelV) == 6464;
    assert v * v <= 6464;
    assert v < 255 ==> 6464 < (v + 1) * (v + 1);
    assert 0 <= v;
    assert 80 * 80 <= 6464 < 81 * 81;
    CappedRootIs(v, 6464, 80);
  }

}
