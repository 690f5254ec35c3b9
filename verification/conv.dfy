/**
 * Box / general convolution (conv.c). For every pixel and channel of its
 * rows, the worker sums the k x k window around the pixel, weight times
 * sample, with out-of-image coordinates replaced by the nearest edge pixel
 * (`clamp_xy`), then scales by `factor`, adds `bias`, rounds half away from
 * zero (`roundf`) and saturates to a byte (`clampi`). The float accumulator
 * is idealised as an exact real.
 */
module Conv {
  import opened Numeric
  import opened Pixels
  import opened Partition
  import opened Dispatch

  /** The convolution parameters of `WorkArgs`: k * k weights in row-major order, scale and offset. */
  datatype ConvParams = ConvParams(kernel: seq<real>, k: nat, factor: real, bias: real)
  {
    /** The weight table is k * k long and k is odd, so the window is centred. */
    predicate Valid()
    {
      k % 2 == 1 && |kernel| == k * k
    }

    /** `r = a->k / 2`. */
    function Radius(): int
    {
      k / 2
    }
  }

  /** One coordinate of `clamp_xy`: negatives become 0, then values at or past n become n - 1. */
  function ClampAxis(v: int, n: int): (r: int)
    ensures n >= 1 ==> 0 <= r < n
    ensures 0 <= v < n ==> r == v
  {
    var a := if v < 0 then 0 else v;
    if a >= n then n - 1 else a
  }

  /**
   * `clamp_xy`: for a non-empty image, a point inside it, and (xx, yy)
   * itself when that is inside.
   */
  function ClampXY(xx: int, yy: int, w: int, h: int): (p: (int, int))
    ensures w >= 1 && h >= 1 ==> 0 <= p.0 < w && 0 <= p.1 < h
    ensures 0 <= xx < w && 0 <= yy < h ==> p == (xx, yy)
  {
    (ClampAxis(xx, w), ClampAxis(yy, h))
  }

  /** The clamped point is, coordinate by coordinate, the in-image point nearest to (xx, yy). */
  lemma {:induction false} ClampXYNearest(xx: int, yy: int, w: int, h: int)
    requires w >= 1 && h >= 1
    ensures IsNearest(ClampXY(xx, yy, w, h).0, 0, w - 1, xx)
    ensures IsNearest(ClampXY(xx, yy, w, h).1, 0, h - 1, yy)
  {
  }

  /** `ki = (ky + r) * k + (kx + r)`. */
  function KernelIndex(ky: int, kx: int, r: int, k: int): int
  {
    (ky + r) * k + (kx + r)
  }

  /** For odd k and r = k / 2, the offsets ky, kx in [-r, r] never index outside the weight table. */
  lemma {:induction false} KernelIndexInTable(k: nat, ky: int, kx: int)
    requires k % 2 == 1
    requires -(k / 2) <= ky <= k / 2 && -(k / 2) <= kx <= k / 2
    ensures 0 <= KernelIndex(ky, kx, k / 2, k) < k * k
  {
    DigitsOrdered(ky + k / 2, kx + k / 2, k, 0, k);
  }

  /** For odd k, distinct offset pairs read distinct weights. */
  lemma {:induction false} KernelIndexInjective(k: nat, ky: int, kx: int, ky': int, kx': int)
    requires k % 2 == 1
    requires -(k / 2) <= ky <= k / 2 && -(k / 2) <= kx <= k / 2
    requires -(k / 2) <= ky' <= k / 2 && -(k / 2) <= kx' <= k / 2
    requires KernelIndex(ky, kx, k / 2, k) == KernelIndex(ky', kx', k / 2, k)
    ensures ky == ky' && kx == kx'
  {
    var r := k / 2;
    if ky < ky' || (ky == ky' && kx < kx') {
      DigitsOrdered(ky + r, kx + r, ky' + r, kx' + r, k);
    } else if ky' < ky || (ky == ky' && kx' < kx) {
      DigitsOrdered(ky' + r, kx' + r, ky + r, kx + r, k);
    }
  }

  /** For odd k, every weight of the table is read, by offsets (i / k - r, i % k - r). */
  lemma {:induction false} KernelIndexOnto(k: nat, i: int)
    requires k % 2 == 1 && 0 <= i < k * k
    ensures -(k / 2) <= i / k - k / 2 <= k / 2 && -(k / 2) <= i % k - k / 2 <= k / 2
    ensures KernelIndex(i / k - k / 2, i % k - k / 2, k / 2, k) == i
  {
    QuotientBelow(i, k, k);
    assert i == (i / k) * k + i % k;
  }

  /** For even k the same arithmetic runs past the table: the last offset pair reads weight k * k + k. */
  lemma {:induction false} EvenKernelOverruns(k: nat)
    requires k >= 2 && k % 2 == 0
    ensures KernelIndex(k / 2, k / 2, k / 2, k) == k * k + k
  {
    assert k / 2 + k / 2 == k;
  }

  /** The preconditions shared by the per-sample functions. */
  predicate SampleOk(img: Image, p: ConvParams, y: nat, x: nat, c: nat)
  {
    img.Valid() && p.Valid() && y < img.height && x < img.width && c < img.channels
  }

  /**
   * Where window row j starts in the weight table, j * k, written as
   * repeated addition so that the accumulator's definition stays linear.
   */
  function RowStart(j: nat, k: nat): nat
  {
    if j == 0 then 0 else RowStart(j - 1, k) + k
  }

  lemma {:induction false} RowStartIsProduct(j: nat, k: nat)
    ensures RowStart(j, k) == j * k
  {
    if j > 0 {
      RowStartIsProduct(j - 1, k);
      assert j * k == (j - 1) * k + k;
    }
  }

  /** The weight the worker reads for offset (ky, kx). */
  function Weight(p: ConvParams, ky: int, kx: int): real
    requires p.Valid()
    requires -p.Radius() <= ky <= p.Radius() && -p.Radius() <= kx <= p.Radius()
  {
    OffsetInTable(p, ky, kx);
    p.kernel[RowStart(ky + p.Radius(), p.k) + (kx + p.Radius())]
  }

  /** Offset (ky, kx) of the window lies inside the weight table, at row ky + r, column kx + r. */
  lemma OffsetInTable(p: ConvParams, ky: int, kx: int)
    requires p.Valid()
    requires -p.Radius() <= ky <= p.Radius() && -p.Radius() <= kx <= p.Radius()
    ensures 0 <= RowStart(ky + p.Radius(), p.k) + (kx + p.Radius()) < |p.kernel|
  {
    RowStartIsProduct(ky + p.Radius(), p.k);
    KernelIndexInTable(p.k, ky, kx);
  }

  /** The weight for (ky, kx) is entry `ki` of the table, which exists for odd k. */
  lemma {:induction false} WeightIsEntry(p: ConvParams, ky: int, kx: int)
    requires p.Valid()
    requires -p.Radius() <= ky <= p.Radius() && -p.Radius() <= kx <= p.Radius()
    ensures 0 <= KernelIndex(ky, kx, p.Radius(), p.k) < |p.kernel|
    ensures Weight(p, ky, kx) == p.kernel[KernelIndex(ky, kx, p.Radius(), p.k)]
  {
    RowStartIsProduct(ky + p.Radius(), p.k);
    KernelIndexInTable(p.k, ky, kx);
  }

  /** Window offsets (ky, kx) with both coordinates in [-r, r]. */
  predicate InWindow(p: ConvParams, ky: int, kx: int)
  {
    -p.Radius() <= ky <= p.Radius() && -p.Radius() <= kx <= p.Radius()
  }

  /** The weight for offset (ky, kx) times channel c of the clamped sample at (y + ky, x + kx). */
  function Term(img: Image, p: ConvParams, y: nat, x: nat, c: nat, ky: int, kx: int): real
    requires SampleOk(img, p, y, x, c) && InWindow(p, ky, kx)
  {
    var q := ClampXY(x + kx, y + ky, img.width, img.height);
    (img.px[q.1][q.0][c] as real) * Weight(p, ky, kx)
  }

  /** `acc` after both loops of `worker_conv`: every term of the k x k window, added in loop order. */
  function Acc(img: Image, p: ConvParams, y: nat, x: nat, c: nat): real
    requires SampleOk(img, p, y, x, c)
  {
    PartialSum(Terms(img, p, y, x, c), p.Radius(), p.k, p.k, 0)
  }

  /** A value per window offset (ky, kx), 0 outside the window. */
  type Cells = (int, int) -> real

  /** The terms of the window around (y, x) in channel c. */
  function Terms(img: Image, p: ConvParams, y: nat, x: nat, c: nat): Cells
    requires SampleOk(img, p, y, x, c)
  {
    (ky: int, kx: int) => if InWindow(p, ky, kx) then Term(img, p, y, x, c, ky, kx) else 0.0
  }

  /** The weights of the window. */
  function Weights(p: ConvParams): Cells
    requires p.Valid()
  {
    (ky: int, kx: int) => if InWindow(p, ky, kx) then Weight(p, ky, kx) else 0.0
  }

  /**
   * The accumulator of the two nested loops of `worker_conv` once they have
   * added the full window rows ky = -r, ..., -r + m - 1 and then the first n
   * cells kx = -r, ..., -r + n - 1 of row ky = -r + m, rows being k cells long.
   */
  function PartialSum(f: Cells, r: int, k: nat, m: nat, n: nat): real
    decreases m, n
  {
    if n > 0 then PartialSum(f, r, k, m, n - 1) + f(m - r, n - 1 - r)
    else if m > 0 then PartialSum(f, r, k, m - 1, k)
    else 0.0
  }


  /**
   * `clampi((int)roundf(t))`: t rounded to the nearest integer, saturated to
   * the byte range; within the range the result is at most half a step from t.
   */
  function Quantize(t: real): (v: Byte)
    ensures t <= 0.0 ==> v == 0
    ensures t >= 255.0 ==> v == 255
    ensures 0.0 <= t <= 255.0 ==> (v as real) - 0.5 <= t <= (v as real) + 0.5
  {
    Clamp255(RoundHalfAway(t))
  }

  /** The accumulator scaled by `factor`, offset by `bias`, and quantized. */
  function Output(p: ConvParams, acc: real): Byte
  {
    Quantize(acc * p.factor + p.bias)
  }

  /** The output sample for pixel (y, x), channel c. */
  function ConvValue(img: Image, p: ConvParams, y: nat, x: nat, c: nat): Byte
    requires SampleOk(img, p, y, x, c)
  {
    Output(p, Acc(img, p, y, x, c))
  }

  /** Cell tables f and g hold the same value in every cell. */
  ghost predicate SameCells(f: Cells, g: Cells)
  {
    forall i, j :: f(i, j) == g(i, j)
  }

  /** Cell tables that agree everywhere accumulate the same sums. */
  lemma {:induction false} PartialSumAgree(f: Cells, g: Cells, r: int, k: nat, m: nat, n: nat)
    requires SameCells(f, g)
    ensures PartialSum(f, r, k, m, n) == PartialSum(g, r, k, m, n)
    decreases m, n
  {
    if n > 0 {
      PartialSumAgree(f, g, r, k, m, n - 1);
    } else if m > 0 {
      PartialSumAgree(f, g, r, k, m - 1, k);
    }
  }

  lemma Distribute(v: real, a: real, b: real)
    ensures v * a + v * b == v * (a + b)
  {
  }

  /** Two images of one shape that agree on channel c. */
  predicate SameChannel(a: Image, b: Image, c: nat)
    requires a.Valid() && b.Valid() && a.SameShape(b) && c < a.channels
  {
    forall y, x :: 0 <= y < a.height && 0 <= x < a.width ==> a.px[y][x][c] == b.px[y][x][c]
  }

  /** Over images that agree on channel c, the terms of channel c agree. */
  lemma TermsSameChannel(a: Image, b: Image, p: ConvParams, y: nat, x: nat, c: nat)
    requires SampleOk(a, p, y, x, c) && b.Valid() && a.SameShape(b) && SameChannel(a, b, c)
    ensures SampleOk(b, p, y, x, c)
    ensures SameCells(Terms(a, p, y, x, c), Terms(b, p, y, x, c))
  {
    forall i, j | InWindow(p, i, j)
      ensures Term(a, p, y, x, c, i, j) == Term(b, p, y, x, c, i, j)
    {
      var q := ClampXY(x + j, y + i, a.width, a.height);
      assert a.px[q.1][q.0][c] == b.px[q.1][q.0][c];
    }
  }

  /** Over images that agree on channel c, the accumulators of channel c agree. */
  lemma {:induction false} AccSameChannel(a: Image, b: Image, p: ConvParams, y: nat, x: nat, c: nat)
    requires SampleOk(a, p, y, x, c) && b.Valid() && a.SameShape(b) && SameChannel(a, b, c)
    ensures SampleOk(b, p, y, x, c)
    ensures Acc(a, p, y, x, c) == Acc(b, p, y, x, c)
  {
    TermsSameChannel(a, b, p, y, x, c);
    PartialSumAgree(Terms(a, p, y, x, c), Terms(b, p, y, x, c), p.Radius(), p.k, p.k, 0);
  }

  /** The output sample is determined by the accumulator. */
  lemma {:induction false} SameAccSameValue(a: Image, b: Image, p: ConvParams, y: nat, x: nat, c: nat)
    requires SampleOk(a, p, y, x, c) && SampleOk(b, p, y, x, c)
    requires Acc(a, p, y, x, c) == Acc(b, p, y, x, c)
    ensures ConvValue(a, p, y, x, c) == ConvValue(b, p, y, x, c)
  {
  }

  /** Channels never mix: output channel c depends on source channel c only. */
  lemma {:induction false} ConvChannelsSeparate(a: Image, b: Image, p: ConvParams, y: nat, x: nat, c: nat)
    requires SampleOk(a, p, y, x, c) && b.Valid() && a.SameShape(b) && SameChannel(a, b, c)
    ensures ConvValue(a, p, y, x, c) == ConvValue(b, p, y, x, c)
  {
    AccSameChannel(a, b, p, y, x, c);
    SameAccSameValue(a, b, p, y, x, c);
  }

  /** The 1x1 kernel [1.0] with factor 1 and bias 0. */
  const IdentityParams: ConvParams := ConvParams([1.0], 1, 1.0, 0.0)

  /** The 1x1 unit kernel reproduces every sample. */
  lemma {:induction false} ConvIdentity(img: Image, y: nat, x: nat, c: nat)
    requires SampleOk(img, IdentityParams, y, x, c)
    ensures ConvValue(img, IdentityParams, y, x, c) == img.px[y][x][c]
  {
    var p := IdentityParams;
    assert p.Radius() == 0;
    assert Term(img, p, y, x, c, 0, 0) == img.px[y][x][c] as real;
    var f := Terms(img, p, y, x, c);
    assert PartialSum(f, 0, 1, 0, 1) == f(0, 0);
    assert Acc(img, p, y, x, c) == PartialSum(f, 0, 1, 0, 1);
    RoundIntegral(img.px[y][x][c]);
  }

  /** Sum of s[a..b). */
  function SumRange(s: seq<real>, a: nat, b: nat): real
    requires a <= b <= |s|
    decreases b - a
  {
    if a == b then 0.0 else SumRange(s, a, b - 1) + s[b - 1]
  }

  /** A channel that holds the same value v at every pixel. */
  predicate UniformChannel(img: Image, c: nat, v: Byte)
    requires img.Valid() && c < img.channels
  {
    forall y, x :: 0 <= y < img.height && 0 <= x < img.width ==> img.px[y][x][c] == v
  }

  /** The cell of window row m, column n (loop counters from 0): offset (m - r, n - r). */
  function CellAt(f: Cells, r: int, m: int, n: int): real
  {
    f(m - r, n - r)
  }

  /**
   * The k x k window of `f`, read row by row, is the sequence `s`: cell (m, n)
   * is entry RowStart(m) + n.
   */
  ghost predicate TableCells(f: Cells, r: int, k: nat, s: seq<real>)
  {
    forall m: nat, n: nat :: m < k && n < k ==> CellIs(f, r, k, s, m, n)
  }

  /** Cell (m, n) of the window of `f` is entry RowStart(m) + n of `s`. */
  ghost predicate CellIs(f: Cells, r: int, k: nat, s: seq<real>, m: nat, n: nat)
  {
    RowStart(m, k) + n < |s| && CellAt(f, r, m, n) == s[RowStart(m, k) + n]
  }

  /**
   * Summing a window in loop order over the first m rows and n more cells
   * adds up the matching prefix of its table.
   */
  lemma {:induction false} TableSum(f: Cells, r: int, k: nat, s: seq<real>, m: nat, n: nat)
    requires TableCells(f, r, k, s)
    requires m <= k && n <= k && (m == k ==> n == 0)
    ensures RowStart(m, k) + n <= |s|
    ensures PartialSum(f, r, k, m, n) == SumRange(s, 0, RowStart(m, k) + n)
    decreases m, n
  {
    if n > 0 {
      TableSum(f, r, k, s, m, n - 1);
      assert CellIs(f, r, k, s, m, n - 1);
    } else if m > 0 {
      TableSum(f, r, k, s, m - 1, k);
      assert CellIs(f, r, k, s, m - 1, k - 1);
    }
  }

  /** The weight the worker reads for window cell (m, n) is entry RowStart(m) + n of the table. */
  lemma WeightAt(p: ConvParams, m: nat, n: nat)
    requires p.Valid() && m < p.k && n < p.k
    ensures InWindow(p, m - p.Radius(), n - p.Radius())
    ensures RowStart(m, p.k) + n < |p.kernel|
    ensures Weight(p, m - p.Radius(), n - p.Radius()) == p.kernel[RowStart(m, p.k) + n]
  {
    var i, j := m - p.Radius(), n - p.Radius();
    OffsetInTable(p, i, j);
    assert i + p.Radius() == m && j + p.Radius() == n;
  }

  /** Cell (m, n) of the weight window is entry RowStart(m) + n of the table, as `ki` reads it. */
  lemma WeightAtCell(p: ConvParams, m: nat, n: nat)
    requires p.Valid() && m < p.k && n < p.k
    ensures RowStart(m, p.k) + n < |p.kernel|
    ensures CellAt(Weights(p), p.Radius(), m, n) == p.kernel[RowStart(m, p.k) + n]
  {
    WeightAt(p, m, n);
  }

  /** The weight window, read row by row, is the kernel table. */
  lemma WeightsTable(p: ConvParams)
    requires p.Valid()
    ensures TableCells(Weights(p), p.Radius(), p.k, p.kernel)
  {
    forall m: nat, n: nat | m < p.k && n < p.k
      ensures CellIs(Weights(p), p.Radius(), p.k, p.kernel, m, n)
    {
      WeightAtCell(p, m, n);
    }
  }

  /** The weights of the whole window add up to the sum of the table. */
  lemma {:induction false} WeightsSumToTable(p: ConvParams)
    requires p.Valid()
    ensures PartialSum(Weights(p), p.Radius(), p.k, p.k, 0) == SumRange(p.kernel, 0, |p.kernel|)
  {
    WeightsTable(p);
    TableSum(Weights(p), p.Radius(), p.k, p.kernel, p.k, 0);
    RowStartIsProduct(p.k, p.k);
    assert RowStart(p.k, p.k) + 0 == |p.kernel|;
  }

  /** Over a uniform channel of value v, the term of window offset (ky, kx) is v times that offset's weight. */
  lemma UniformTerm(img: Image, p: ConvParams, y: nat, x: nat, c: nat, v: Byte, ky: int, kx: int)
    requires SampleOk(img, p, y, x, c) && UniformChannel(img, c, v)
    requires InWindow(p, ky, kx)
    ensures Term(img, p, y, x, c, ky, kx) == (v as real) * Weight(p, ky, kx)
  {
    var q := ClampXY(x + kx, y + ky, img.width, img.height);
    assert img.px[q.1][q.0][c] == v;
  }

  /** The weight table with every entry multiplied by v. */
  function ScaleTable(s: seq<real>, v: real): (t: seq<real>)
    ensures |t| == |s|
    ensures forall i :: 0 <= i < |s| ==> t[i] == v * s[i]
  {
    seq(|s|, i requires 0 <= i < |s| => v * s[i])
  }

  /** Summing a scaled prefix is scaling the prefix sum. */
  lemma {:induction false} SumScaled(s: seq<real>, v: real, b: nat)
    requires b <= |s|
    ensures SumRange(ScaleTable(s, v), 0, b) == v * SumRange(s, 0, b)
  {
    if b > 0 {
      SumScaled(s, v, b - 1);
      Distribute(v, SumRange(s, 0, b - 1), s[b - 1]);
    }
  }

  /** Over a uniform channel of value v, cell (m, n) of the window's terms is entry RowStart(m) + n of the table scaled by v. */
  lemma UniformCell(img: Image, p: ConvParams, y: nat, x: nat, c: nat, v: Byte, m: nat, n: nat)
    requires SampleOk(img, p, y, x, c) && UniformChannel(img, c, v)
    requires m < p.k && n < p.k
    ensures CellIs(Terms(img, p, y, x, c), p.Radius(), p.k, ScaleTable(p.kernel, v as real), m, n)
  {
    var ky, kx := m - p.Radius(), n - p.Radius();
    WeightAt(p, m, n);
    UniformTerm(img, p, y, x, c, v, ky, kx);
    var t := ScaleTable(p.kernel, v as real);
    assert t[RowStart(m, p.k) + n] == (v as real) * Weight(p, ky, kx);
    assert Terms(img, p, y, x, c)(ky, kx) == Term(img, p, y, x, c, ky, kx);
  }

  /** Over a uniform channel of value v, the window's terms, read row by row, are the table scaled by v. */
  lemma TermsUniformTable(img: Image, p: ConvParams, y: nat, x: nat, c: nat, v: Byte)
    requires SampleOk(img, p, y, x, c) && UniformChannel(img, c, v)
    ensures TableCells(Terms(img, p, y, x, c), p.Radius(), p.k, ScaleTable(p.kernel, v as real))
  {
    var f, t := Terms(img, p, y, x, c), ScaleTable(p.kernel, v as real);
    forall m: nat, n: nat | m < p.k && n < p.k
      ensures CellIs(f, p.Radius(), p.k, t, m, n)
    {
      UniformCell(img, p, y, x, c, v, m, n);
    }
  }

  /** With weights summing to 1, the accumulator over a uniform channel is that channel's value. */
  lemma {:induction false} AccUniform(img: Image, p: ConvParams, y: nat, x: nat, c: nat, v: Byte)
    requires SampleOk(img, p, y, x, c) && UniformChannel(img, c, v)
    requires SumRange(p.kernel, 0, |p.kernel|) == 1.0
    ensures Acc(img, p, y, x, c) == v as real
  {
    var t := ScaleTable(p.kernel, v as real);
    TermsUniformTable(img, p, y, x, c, v);
    TableSum(Terms(img, p, y, x, c), p.Radius(), p.k, t, p.k, 0);
    RowStartIsProduct(p.k, p.k);
    SumScaled(p.kernel, v as real, |p.kernel|);
  }

  /**
   * Blurring a flat channel leaves it flat: with weights summing to 1, factor
   * 1 and bias 0, every output sample of a uniform channel is that value.
   */
  lemma {:induction false} ConvUniform(img: Image, p: ConvParams, y: nat, x: nat, c: nat, v: Byte)
    requires SampleOk(img, p, y, x, c) && UniformChannel(img, c, v)
    requires SumRange(p.kernel, 0, |p.kernel|) == 1.0 && p.factor == 1.0 && p.bias == 0.0
    ensures ConvValue(img, p, y, x, c) == v
  {
    AccUniform(img, p, y, x, c, v);
    RoundIntegral(v);
  }

  /** The row `worker_conv` leaves at index y: every column and channel recomputed. */
  function ConvRow(img: Image, p: ConvParams, y: nat): (row: Row)
    requires img.Valid() && p.Valid() && y < img.height
    ensures RowShaped(row, img.width, img.channels)
  {
    seq(img.width, x requires 0 <= x < img.width =>
      seq(img.channels, c requires 0 <= c < img.channels => ConvValue(img, p, y, x, c)))
  }

  /** `worker_conv` as a row rewrite for the dispatcher. */
  function ConvWork(img: Image, p: ConvParams): RowWork
    requires img.Valid() && p.Valid()
  {
    (y: nat, row: Row) => if y < img.height then ConvRow(img, p, y) else row
  }

  /** `worker_conv` over the rows [r.lo, r.hi): exactly those rows are recomputed. */
  function ConvWorker(img: Image, p: ConvParams, r: Range, dst: Image): (out: Image)
    requires img.Valid() && p.Valid() && dst.Valid() && img.SameShape(dst)
    ensures out.Valid() && out.SameShape(dst)
    ensures forall y, x, c :: 0 <= y < out.height && 0 <= x < out.width && 0 <= c < out.channels ==>
              out.px[y][x][c] == if r.Contains(y) then ConvValue(img, p, y, x, c) else dst.px[y][x][c]
  {
    dst.(px := RunWorker(ConvWork(img, p), r, dst.px))
  }

  /** `out` has the shape of `img` and holds the convolved value in every sample. */
  predicate Convolved(img: Image, p: ConvParams, out: Image)
    requires img.Valid() && p.Valid()
  {
    && out.Valid() && out.SameShape(img)
    && forall y, x, c :: 0 <= y < out.height && 0 <= x < out.width && 0 <= c < out.channels ==>
         out.px[y][x][c] == ConvValue(img, p, y, x, c)
  }

  /** `conv_concurrent`: for every thread count, every sample of the destination is recomputed. */
  function ConvConcurrent(img: Image, p: ConvParams, n: int, dst: Image): (out: Image)
    requires img.Valid() && p.Valid() && dst.Valid() && img.SameShape(dst)
    ensures out.SameShape(dst) && Convolved(img, p, out)
  {
    ConvLaunch(img, p, n, dst);
    dst.(px := LaunchByRows(ConvWork(img, p), n, dst.px))
  }

  /** The dispatch of the convolution worker recomputes every sample, for every thread count. */
  lemma ConvLaunch(img: Image, p: ConvParams, n: int, dst: Image)
    requires img.Valid() && p.Valid() && dst.Valid() && img.SameShape(dst)
    ensures Convolved(img, p, dst.(px := LaunchByRows(ConvWork(img, p), n, dst.px)))
  {
    ConvEverywhere(img, p, dst);
    assert LaunchByRows(ConvWork(img, p), n, dst.px) == Everywhere(ConvWork(img, p), dst.px);
  }

  /** Every row rewritten once by the convolution worker. */
  lemma ConvEverywhere(img: Image, p: ConvParams, dst: Image)
    requires img.Valid() && p.Valid() && dst.Valid() && img.SameShape(dst)
    ensures dst.(px := Everywhere(ConvWork(img, p), dst.px)).Valid()
    ensures forall y, x, c :: 0 <= y < dst.height && 0 <= x < dst.width && 0 <= c < dst.channels ==>
              Everywhere(ConvWork(img, p), dst.px)[y][x][c] == ConvValue(img, p, y, x, c)
  {
    var g := Everywhere(ConvWork(img, p), dst.px);
    forall y | 0 <= y < dst.height
      ensures g[y] == ConvRow(img, p, y)
    {
    }
  }
}
