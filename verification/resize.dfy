/**
 * Resize (resize.c). Target pixel (x, y) of an nw x nh image samples the
 * source at the centre-aligned point ((x + 0.5) * w / nw - 0.5,
 * (y + 0.5) * h / nh - 0.5), so pixel centres of the two grids line up. The
 * target rows are split among the workers by the quotient / remainder scheme
 * (`Partition.EvenRanges`). The scale factors are exact reals.
 */
module Resize {
  import opened Numeric
  import opened Pixels
  import opened Partition
  import opened Dispatch
  import opened Sampler

  /** `sx = (float)w / (float)nw`: source pixels per target pixel. */
  function Scale(src: nat, dst: nat): (s: real)
    requires dst >= 1
    ensures s * dst as real == src as real
    ensures src >= 1 ==> s > 0.0
    ensures src == dst ==> s == 1.0
  {
    src as real / dst as real
  }

  /** A non-negative factor keeps the order of what it multiplies. */
  lemma MulMonotone(a: real, b: real, s: real)
    requires a <= b && s >= 0.0
    ensures a * s <= b * s
  {
    assert b * s - a * s == (b - a) * s;
    MulNonneg(b - a, s);
  }

  /**
   * The centre-aligned source coordinate of target index x along an axis of
   * `src` source and `dst` target pixels. For every target index its floor
   * lies in [-1, src - 1], which is what the corner clamps of `bilinear`
   * need; at equal sizes it is x itself.
   */
  function SourceCoord(x: nat, src: nat, dst: nat): (v: real)
    requires dst >= 1
    ensures x < dst && src >= 1 ==> -1 <= v.Floor <= src - 1
    ensures src == dst ==> v == x as real
  {
    var v := (x as real + 0.5) * Scale(src, dst) - 0.5;
    CoordInside(x, src, dst);
    v
  }

  /** For a target index, the centre-aligned coordinate lies strictly inside (-1, src - 0.5). */
  lemma CoordInside(x: nat, src: nat, dst: nat)
    requires dst >= 1
    ensures x < dst && src >= 1 ==> -1.0 < (x as real + 0.5) * Scale(src, dst) - 0.5 < src as real - 0.5
  {
    var s := Scale(src, dst);
    if x < dst && src >= 1 {
      var a := x as real + 0.5;
      MulNonneg(a, s);
      MulMonotone(a, dst as real - 0.5, s);
      calc {
        a * s - 0.5;
      <=
        (dst as real - 0.5) * s - 0.5;
      ==  { assert (dst as real - 0.5) * s == s * dst as real - 0.5 * s; }
        s * dst as real - 0.5 * s - 0.5;
      ==
        src as real - 0.5 * s - 0.5;
      <
        src as real - 0.5;
      }
    }
  }

  /** Target indices further along map to source coordinates further along. */
  lemma SourceCoordMonotone(x: nat, x': nat, src: nat, dst: nat)
    requires dst >= 1 && src >= 1 && x < x'
    ensures SourceCoord(x, src, dst) < SourceCoord(x', src, dst)
  {
    var s := Scale(src, dst);
    var a, b := x as real + 0.5, x' as real + 0.5;
    MulStrict(a, b, s);
    calc {
      SourceCoord(x, src, dst);
    ==
      a * s - 0.5;
    <
      b * s - 0.5;
    ==
      SourceCoord(x', src, dst);
    }
  }

  /** A positive factor keeps strict order. */
  lemma MulStrict(a: real, b: real, s: real)
    requires a < b && s > 0.0
    ensures a * s < b * s
  {
    assert b * s - a * s == (b - a) * s;
    MulPositive(b - a, s);
  }

  lemma MulPositive(a: real, b: real)
    requires a > 0.0 && b > 0.0
    ensures a * b > 0.0
  {
  }

  /** The map is symmetric about the middle: mirrored target indices map to mirrored source coordinates. */
  lemma SourceCoordMirror(x: nat, src: nat, dst: nat)
    requires x < dst
    ensures SourceCoord(dst - 1 - x, src, dst) == (src as real - 1.0) - SourceCoord(x, src, dst)
  {
    var s := Scale(src, dst);
    assert ((dst - 1 - x) as real + 0.5) * s == dst as real * s - (x as real + 0.5) * s;
    assert dst as real * s == s * dst as real;
  }

  /** Source and target dimensions fit: a non-empty target needs a non-empty source. */
  predicate ResizeOk(img: Image, dst: Image)
  {
    && img.Valid() && dst.Valid()
    && dst.channels == img.channels
    && (dst.width >= 1 && dst.height >= 1 ==> img.width >= 1 && img.height >= 1)
  }

  /** The source point of target pixel (x, y) in an nw x nh target. */
  function ResizePoint(img: Image, nw: nat, nh: nat, y: nat, x: nat): (p: (real, real))
    requires x < nw && y < nh
  {
    (SourceCoord(x, img.width, nw), SourceCoord(y, img.height, nh))
  }

  /**
   * Channel c of target pixel (x, y): the bilinear sample at its centre-aligned
   * source point, which is always samplable, so the value lies between the
   * four corner samples around that point.
   */
  function ResizeValue(img: Image, nw: nat, nh: nat, y: nat, x: nat, c: nat): (v: Byte)
    requires img.Valid() && c < img.channels && img.width >= 1 && img.height >= 1
    requires x < nw && y < nh
    ensures var p := ResizePoint(img, nw, nh, y, x);
            Samplable(img, c, p.0, p.1) && CornerSamples(img, c, p.0, p.1).Lowest() <= v <= CornerSamples(img, c, p.0, p.1).Highest()
  {
    var p := ResizePoint(img, nw, nh, y, x);
    Bilinear(img, c, p.0, p.1)
  }

  /** Resizing to the same size keeps every sample. */
  lemma ResizeSameSize(img: Image, y: nat, x: nat, c: nat)
    requires img.Valid() && y < img.height && x < img.width && c < img.channels
    ensures ResizeValue(img, img.width, img.height, y, x, c) == img.px[y][x][c]
  {
    BilinearAtPixel(img, c, x, y);
  }

  function ResizeRow(img: Image, nw: nat, nh: nat, y: nat): (row: Row)
    requires img.Valid() && y < nh
    requires nw >= 1 ==> img.width >= 1 && img.height >= 1
    ensures RowShaped(row, nw, img.channels)
  {
    seq(nw, x requires 0 <= x < nw =>
      seq(img.channels, c requires 0 <= c < img.channels => ResizeValue(img, nw, nh, y, x, c)))
  }

  /** `worker_resize` as a row rewrite: rows at or past nh are left alone (the `y < R->nh` guard). */
  function ResizeWork(img: Image, nw: nat, nh: nat): RowWork
    requires img.Valid()
    requires nw >= 1 && nh >= 1 ==> img.width >= 1 && img.height >= 1
  {
    (y: nat, row: Row) => if y < nh then ResizeRow(img, nw, nh, y) else row
  }

  /** `worker_resize` over the target rows [r.lo, r.hi): exactly those rows are recomputed. */
  function ResizeWorker(img: Image, r: Range, dst: Image): (out: Image)
    requires ResizeOk(img, dst)
    ensures out.Valid() && out.SameShape(dst)
    ensures forall y, x, c :: 0 <= y < out.height && 0 <= x < out.width && 0 <= c < out.channels ==>
              img.width >= 1 && img.height >= 1 &&
              out.px[y][x][c] == if r.Contains(y) then ResizeValue(img, dst.width, dst.height, y, x, c) else dst.px[y][x][c]
  {
    dst.(px := RunWorker(ResizeWork(img, dst.width, dst.height), r, dst.px))
  }

  /**
   * `resize_concurrent`: for every thread count n >= 1 (the source divides by
   * n), every sample of the nw x nh destination is recomputed.
   */
  function ResizeConcurrent(img: Image, n: nat, dst: Image): (out: Image)
    requires ResizeOk(img, dst) && n >= 1
    ensures out.SameShape(dst) && Resized(img, out)
  {
    ResizeLaunch(img, n, dst);
    dst.(px := LaunchResize(ResizeWork(img, dst.width, dst.height), n, dst.px))
  }

  /**
   * `out` keeps the channels of `img` and holds, in every sample, the value
   * resized to out's own width and height, read from a non-empty source.
   */
  predicate Resized(img: Image, out: Image)
    requires img.Valid()
  {
    && out.Valid() && out.channels == img.channels
    && forall y, x, c :: 0 <= y < out.height && 0 <= x < out.width && 0 <= c < out.channels ==>
         img.width >= 1 && img.height >= 1 &&
         out.px[y][x][c] == ResizeValue(img, out.width, out.height, y, x, c)
  }

  /** The dispatch of the resize worker recomputes every target sample, for every thread count n >= 1. */
  lemma ResizeLaunch(img: Image, n: nat, dst: Image)
    requires ResizeOk(img, dst) && n >= 1
    ensures Resized(img, dst.(px := LaunchResize(ResizeWork(img, dst.width, dst.height), n, dst.px)))
  {
    ResizeEverywhere(img, dst);
    assert LaunchResize(ResizeWork(img, dst.width, dst.height), n, dst.px) == Everywhere(ResizeWork(img, dst.width, dst.height), dst.px);
  }

  /** Every target row rewritten once by the resize worker. */
  lemma ResizeEverywhere(img: Image, dst: Image)
    requires ResizeOk(img, dst)
    ensures dst.(px := Everywhere(ResizeWork(img, dst.width, dst.height), dst.px)).Valid()
    ensures forall y, x, c :: 0 <= y < dst.height && 0 <= x < dst.width && 0 <= c < dst.channels ==>
              img.width >= 1 && img.height >= 1 &&
              Everywhere(ResizeWork(img, dst.width, dst.height), dst.px)[y][x][c] == ResizeValue(img, dst.width, dst.height, y, x, c)
  {
    var g := Everywhere(ResizeWork(img, dst.width, dst.height), dst.px);
    forall y | 0 <= y < dst.height
      ensures g[y] == ResizeRow(img, dst.width, dst.height, y)
    {
    }
  }

  /** Resizing to the source's own size reproduces the source, for every thread count. */
  lemma ResizeSameSizeImage(img: Image, n: nat, dst: Image)
    requires img.Valid() && dst.Valid() && img.SameShape(dst) && n >= 1
    ensures ResizeConcurrent(img, n, dst) == img
  {
    var work := ResizeWork(img, dst.width, dst.height);
    var out := dst.(px := Everywhere(work, dst.px));
    ResizeEverywhere(img, dst);
    forall y, x, c | 0 <= y < img.height && 0 <= x < img.width && 0 <= c < img.channels
      ensures out.px[y][x][c] == img.px[y][x][c]
    {
      ResizeSameSize(img, y, x, c);
    }
    ImageExt(out, img);
    assert ResizeConcurrent(img, n, dst) == out;
  }

}
