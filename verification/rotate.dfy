/**
 * Rotation (rotate.c). Every destination pixel (x, y) is mapped back to a
 * source point by rotating it about the image centre ((w - 1) / 2, (h - 1) / 2);
 * a source point inside [0, w) x [0, h) is sampled bilinearly, any other gives
 * 0 on every channel. The cosine and sine of the angle (`cosf`, `sinf` of the
 * angle in radians) are taken as given reals.
 */
module Rotate {
  import opened Numeric
  import opened Pixels
  import opened Partition
  import opened Dispatch
  import opened Sampler

  /** The cosine and sine `worker_rotate` computes from the angle. */
  datatype Turn = Turn(cos: real, sin: real)
  {
    /** cos^2 + sin^2 = 1: the pair really is an angle. */
    predicate Proper()
    {
      cos * cos + sin * sin == 1.0
    }

    /** The same angle in the opposite direction. */
    function Reverse(): Turn
    {
      Turn(cos, -sin)
    }
  }

  /** The zero angle: cos 0 = 1, sin 0 = 0. */
  const Still := Turn(1.0, 0.0)

  datatype Point = Point(x: real, y: real)

  /** The rotation centre along an axis of n pixels: (n - 1) / 2. */
  function Centre(n: nat): (m: real)
    ensures m - 0.0 == (n as real - 1.0) - m
    ensures n % 2 == 1 ==> m == ((n - 1) / 2) as real
  {
    (n as real - 1.0) / 2.0
  }

  /** The inverse map of `worker_rotate`: the source point of destination point p, turned about o. */
  function InverseMap(t: Turn, o: Point, p: Point): Point
  {
    var xd := p.x - o.x;
    var yd := p.y - o.y;
    Point(t.cos * xd + t.sin * yd + o.x, -t.sin * xd + t.cos * yd + o.y)
  }

  /** The centre of rotation is its own source point, whatever the angle. */
  lemma CentreFixed(t: Turn, o: Point)
    ensures InverseMap(t, o, o) == o
  {
    assert t.cos * 0.0 == 0.0 && t.sin * 0.0 == 0.0 && -t.sin * 0.0 == 0.0;
  }

  /** At the zero angle every point is its own source point. */
  lemma StillMapsToItself(o: Point, p: Point)
    ensures InverseMap(Still, o, p) == p
  {
  }

  /** Squared distance of p from o. */
  function Radius2(o: Point, p: Point): real
  {
    (p.x - o.x) * (p.x - o.x) + (p.y - o.y) * (p.y - o.y)
  }

  /** For a proper angle the map keeps every point at its distance from the centre. */
  lemma MapKeepsRadius(t: Turn, o: Point, p: Point)
    requires t.Proper()
    ensures Radius2(o, InverseMap(t, o, p)) == Radius2(o, p)
  {
    var xd, yd := p.x - o.x, p.y - o.y;
    var c, s := t.cos, t.sin;
    var u, v := c * xd + s * yd, -s * xd + c * yd;
    assert u * u + v * v == (c * c + s * s) * (xd * xd + yd * yd);
  }

  /** Expanding the two turns of `ReverseUndoesMap`, one coordinate at a time. */
  lemma TurnBackX(c: real, s: real, a: real, b: real)
    ensures c * (c * a + s * b) + -s * (-s * a + c * b) == (c * c + s * s) * a
  {
    assert c * (c * a + s * b) == c * c * a + c * s * b;
    assert -s * (-s * a + c * b) == s * s * a - s * c * b;
  }

  lemma TurnBackY(c: real, s: real, a: real, b: real)
    ensures -(-s) * (c * a + s * b) + c * (-s * a + c * b) == (c * c + s * s) * b
  {
    assert -(-s) * (c * a + s * b) == s * c * a + s * s * b;
    assert c * (-s * a + c * b) == -(c * s * a) + c * c * b;
  }

  /** Both coordinates come back after a turn and its reverse, when cos^2 + sin^2 = 1. */
  lemma TurnBack(c: real, s: real, a: real, b: real, u: real, v: real)
    requires c * c + s * s == 1.0
    requires u == c * a + s * b && v == -s * a + c * b
    ensures c * u + -s * v == a
    ensures -(-s) * u + c * v == b
  {
    TurnBackX(c, s, a, b);
    TurnBackY(c, s, a, b);
  }

  /** The offset of a source point from the centre, one coordinate at a time. */
  lemma InverseMapOffset(t: Turn, o: Point, p: Point)
    ensures InverseMap(t, o, p).x - o.x == t.cos * (p.x - o.x) + t.sin * (p.y - o.y)
    ensures InverseMap(t, o, p).y - o.y == -t.sin * (p.x - o.x) + t.cos * (p.y - o.y)
  {
  }

  /** For a proper angle, turning back by the reverse angle returns the original point. */
  lemma ReverseUndoesMap(t: Turn, o: Point, p: Point)
    requires t.Proper()
    ensures InverseMap(t.Reverse(), o, InverseMap(t, o, p)) == p
  {
    var q := InverseMap(t, o, p);
    InverseMapOffset(t, o, p);
    InverseMapOffset(t.Reverse(), o, q);
    TurnBack(t.cos, t.sin, p.x - o.x, p.y - o.y, q.x - o.x, q.y - o.y);
  }

  /** The source point of destination pixel (x, y) of `img`. */
  function SourcePoint(img: Image, t: Turn, y: nat, x: nat): Point
  {
    InverseMap(t, Point(Centre(img.width), Centre(img.height)), Point(x as real, y as real))
  }

  /** The bounds gate of `worker_rotate`: the source point lies in [0, w) x [0, h). */
  predicate InImage(img: Image, s: Point)
  {
    0.0 <= s.x < img.width as real && 0.0 <= s.y < img.height as real
  }

  /**
   * Channel c of destination pixel (x, y): black when the source point falls
   * outside the image, otherwise a value between the four corner samples
   * around the source point.
   */
  function RotateValue(img: Image, t: Turn, y: nat, x: nat, c: nat): (v: Byte)
    requires img.Valid() && c < img.channels
    ensures !InImage(img, SourcePoint(img, t, y, x)) ==> v == 0
    ensures var s := SourcePoint(img, t, y, x);
            InImage(img, s) ==> Samplable(img, c, s.x, s.y) && CornerSamples(img, c, s.x, s.y).Lowest() <= v <= CornerSamples(img, c, s.x, s.y).Highest()
  {
    var s := SourcePoint(img, t, y, x);
    if InImage(img, s) then
      InsideSamplable(img, c, s.x, s.y);
      Bilinear(img, c, s.x, s.y)
    else
      0
  }

  /** At the zero angle every pixel keeps its value. */
  lemma RotateStill(img: Image, y: nat, x: nat, c: nat)
    requires img.Valid() && y < img.height && x < img.width && c < img.channels
    ensures RotateValue(img, Still, y, x, c) == img.px[y][x][c]
  {
    StillMapsToItself(Point(Centre(img.width), Centre(img.height)), Point(x as real, y as real));
    BilinearAtPixel(img, c, x, y);
  }

  /** In an image of odd width and height the centre pixel keeps its value at every angle. */
  lemma RotateCentre(img: Image, t: Turn, c: nat)
    requires img.Valid() && c < img.channels
    requires img.width % 2 == 1 && img.height % 2 == 1
    ensures RotateValue(img, t, (img.height - 1) / 2, (img.width - 1) / 2, c) == img.px[(img.height - 1) / 2][(img.width - 1) / 2][c]
  {
    var x, y := (img.width - 1) / 2, (img.height - 1) / 2;
    var o := Point(Centre(img.width), Centre(img.height));
    assert Point(x as real, y as real) == o;
    CentreFixed(t, o);
    BilinearAtPixel(img, c, x, y);
  }

  function RotateRow(img: Image, t: Turn, y: nat): (row: Row)
    requires img.Valid()
    ensures RowShaped(row, img.width, img.channels)
  {
    seq(img.width, x requires 0 <= x < img.width =>
      seq(img.channels, c requires 0 <= c < img.channels => RotateValue(img, t, y, x, c)))
  }

  /** `worker_rotate` as a row rewrite for the dispatcher. */
  function RotateWork(img: Image, t: Turn): RowWork
    requires img.Valid()
  {
    (y: nat, row: Row) => if y < img.height then RotateRow(img, t, y) else row
  }

  /** `worker_rotate` over the rows [r.lo, r.hi): exactly those rows are recomputed, across all columns and channels. */
  function RotateWorker(img: Image, t: Turn, r: Range, dst: Image): (out: Image)
    requires img.Valid() && dst.Valid() && img.SameShape(dst)
    ensures out.Valid() && out.SameShape(dst)
    ensures forall y, x, c :: 0 <= y < out.height && 0 <= x < out.width && 0 <= c < out.channels ==>
              out.px[y][x][c] == if r.Contains(y) then RotateValue(img, t, y, x, c) else dst.px[y][x][c]
  {
    RotateRows(img, t, r, dst);
    dst.(px := RunWorker(RotateWork(img, t), r, dst.px))
  }

  /** The rows [r.lo, r.hi) rewritten by the rotation worker, the others kept. */
  lemma RotateRows(img: Image, t: Turn, r: Range, dst: Image)
    requires img.Valid() && dst.Valid() && img.SameShape(dst)
    ensures dst.(px := RunWorker(RotateWork(img, t), r, dst.px)).Valid()
    ensures forall y, x, c :: 0 <= y < dst.height && 0 <= x < dst.width && 0 <= c < dst.channels ==>
              RunWorker(RotateWork(img, t), r, dst.px)[y][x][c] ==
                if r.Contains(y) then RotateValue(img, t, y, x, c) else dst.px[y][x][c]
  {
    var g := RunWorker(RotateWork(img, t), r, dst.px);
    forall y | 0 <= y < dst.height
      ensures g[y] == if r.Contains(y) then RotateRow(img, t, y) else dst.px[y]
    {
    }
  }

  /** `out` has the shape of `img` and holds the rotated value by t in every sample. */
  predicate Rotated(img: Image, t: Turn, out: Image)
    requires img.Valid()
  {
    && out.Valid() && out.SameShape(img)
    && forall y, x, c :: 0 <= y < out.height && 0 <= x < out.width && 0 <= c < out.channels ==>
         out.px[y][x][c] == RotateValue(img, t, y, x, c)
  }

  /** `rotate_concurrent`: for every thread count, every sample of the destination is recomputed. */
  function RotateConcurrent(img: Image, t: Turn, n: int, dst: Image): (out: Image)
    requires img.Valid() && dst.Valid() && img.SameShape(dst)
    ensures out.SameShape(dst) && Rotated(img, t, out)
  {
    RotateLaunch(img, t, n, dst);
    dst.(px := LaunchByRows(RotateWork(img, t), n, dst.px))
  }

  /** The dispatch of the rotation worker recomputes every sample, for every thread count. */
  lemma RotateLaunch(img: Image, t: Turn, n: int, dst: Image)
    requires img.Valid() && dst.Valid() && img.SameShape(dst)
    ensures Rotated(img, t, dst.(px := LaunchByRows(RotateWork(img, t), n, dst.px)))
  {
    RotateEverywhere(img, t, dst);
    assert LaunchByRows(RotateWork(img, t), n, dst.px) == Everywhere(RotateWork(img, t), dst.px);
  }

  /** Every row rewritten once by the rotation worker. */
  lemma RotateEverywhere(img: Image, t: Turn, dst: Image)
    requires img.Valid() && dst.Valid() && img.SameShape(dst)
    ensures dst.(px := Everywhere(RotateWork(img, t), dst.px)).Valid()
    ensures forall y, x, c :: 0 <= y < dst.height && 0 <= x < dst.width && 0 <= c < dst.channels ==>
              Everywhere(RotateWork(img, t), dst.px)[y][x][c] == RotateValue(img, t, y, x, c)
  {
    var g := Everywhere(RotateWork(img, t), dst.px);
    forall y | 0 <= y < dst.height
      ensures g[y] == RotateRow(img, t, y)
    {
    }
  }

  /** Rotating by the zero angle reproduces the source image, for every thread count. */
  lemma RotateStillImage(img: Image, n: int, dst: Image)
    requires img.Valid() && dst.Valid() && img.SameShape(dst)
    ensures RotateConcurrent(img, Still, n, dst) == img
  {
    var out := dst.(px := Everywhere(RotateWork(img, Still), dst.px));
    RotateEverywhere(img, Still, dst);
    forall y, x, c | 0 <= y < img.height && 0 <= x < img.width && 0 <= c < img.channels
      ensures out.px[y][x][c] == img.px[y][x][c]
    {
      RotateStill(img, y, x, c);
    }
    ImageExt(out, img);
    assert RotateConcurrent(img, Still, n, dst) == out;
  }
}
