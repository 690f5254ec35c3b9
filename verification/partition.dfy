/**
 * Row partitioning. Two schemes split the rows of a destination image into
 * one half-open range per worker:
 *  - `launch_threads_by_rows` (utils_conc.c), used by Sobel, convolution and
 *    rotation: every worker gets ceil(rows / n) rows, clipped at `rows`;
 *  - `resize_concurrent` (resize.c): quotient / remainder split of the target
 *    height, the first `nh % n` workers taking one extra row.
 * Both produce ranges that tile [0, rows) exactly, which is what makes the
 * row-parallel dispatch race-free and independent of the worker count.
 */
module Partition {
  import opened Numeric

  /** The rows [lo, hi) handed to one worker (`y0`, `y1` in `WorkArgs`). */
  datatype Range = Range(lo: nat, hi: nat)
  {
    predicate Contains(y: int)
    {
      lo <= y < hi
    }

    function Size(): int
    {
      hi - lo
    }
  }

  /**
   * `rs` is a chain of non-inverted ranges, each starting where the previous
   * one stopped, running from `a` to `b`.
   */
  predicate Covers(rs: seq<Range>, a: nat, b: nat)
  {
    && (|rs| == 0 ==> a == b)
    && (|rs| > 0 ==> rs[0].lo == a && rs[|rs| - 1].hi == b)
    && (forall i :: 0 <= i < |rs| ==> rs[i].lo <= rs[i].hi)
    && (forall i :: 0 <= i < |rs| - 1 ==> rs[i].hi == rs[i + 1].lo)
  }

  /** At least one range, and together they chain from row 0 to `rows`. */
  predicate Tiles(rs: seq<Range>, rows: nat)
  {
    |rs| >= 1 && Covers(rs, 0, rows)
  }

  /** Dropping the first range of a chain leaves a chain from where it stopped. */
  lemma CoversTail(rs: seq<Range>, a: nat, b: nat)
    requires |rs| > 0 && Covers(rs, a, b)
    ensures Covers(rs[1..], rs[0].hi, b)
  {
    var t := rs[1..];
    forall i | 0 <= i < |t| - 1
      ensures t[i].hi == t[i + 1].lo
    {
      assert t[i] == rs[i + 1] && t[i + 1] == rs[i + 2];
    }
  }

  /** In a chain, an earlier range ends no later than a later one starts. */
  lemma {:induction false} CoversOrdered(rs: seq<Range>, a: nat, b: nat, i: nat, j: nat)
    requires Covers(rs, a, b)
    requires i < j < |rs|
    ensures rs[i].hi <= rs[j].lo
    decreases j - i
  {
    if j > i + 1 {
      CoversOrdered(rs, a, b, i, j - 1);
    }
  }

  /** Every range of a chain lies inside [a, b). */
  lemma CoversBounds(rs: seq<Range>, a: nat, b: nat, i: nat)
    requires Covers(rs, a, b)
    requires i < |rs|
    ensures a <= rs[i].lo <= rs[i].hi <= b
  {
    if i > 0 {
      CoversOrdered(rs, a, b, 0, i);
    }
    if i < |rs| - 1 {
      CoversOrdered(rs, a, b, i, |rs| - 1);
    }
  }

  /** Row `y` lies in at least one of the ranges. */
  ghost predicate InSome(rs: seq<Range>, y: int)
  {
    exists i :: 0 <= i < |rs| && rs[i].Contains(y)
  }

  /**
   * A tiling is an exact partition: every row of [0, rows) lies in exactly
   * one range, and no range holds a row outside [0, rows).
   */
  lemma TilesPartition(rs: seq<Range>, rows: nat)
    requires Tiles(rs, rows)
    ensures forall y :: 0 <= y < rows ==> InSome(rs, y)
    ensures forall i, j, y :: 0 <= i < |rs| && 0 <= j < |rs| && rs[i].Contains(y) && rs[j].Contains(y) ==> i == j
    ensures forall i, y :: 0 <= i < |rs| && rs[i].Contains(y) ==> 0 <= y < rows
  {
    forall y | 0 <= y < rows
      ensures InSome(rs, y)
    {
      var i := FindRange(rs, rows, y);
    }
    forall i, j, y | 0 <= i < |rs| && 0 <= j < |rs| && rs[i].Contains(y) && rs[j].Contains(y)
      ensures i == j
    {
      if i < j {
        CoversOrdered(rs, 0, rows, i, j);
      } else if j < i {
        CoversOrdered(rs, 0, rows, j, i);
      }
    }
    forall i, y | 0 <= i < |rs| && rs[i].Contains(y)
      ensures 0 <= y < rows
    {
      CoversBounds(rs, 0, rows, i);
    }
  }

  /** The range of a tiling that holds row `y`, found by walking the chain. */
  lemma FindRange(rs: seq<Range>, rows: nat, y: nat) returns (i: nat)
    requires Tiles(rs, rows) && y < rows
    ensures i < |rs| && rs[i].Contains(y)
  {
    i := 0;
    while rs[i].hi <= y
      invariant i < |rs| && rs[i].lo <= y
      decreases |rs| - i
    {
      i := i + 1;
    }
  }

  /** `num_threads` below 1 is treated as 1. */
  function ThreadCount(n: int): (m: nat)
    ensures m >= 1
    ensures n < 1 ==> m == 1
    ensures n >= 1 ==> m == n
  {
    if n < 1 then 1 else n
  }

  /** Integer ceiling of a / b; `(int)ceil((double)a / b)` is exact at image sizes. */
  function CeilDiv(a: nat, b: nat): (q: nat)
    requires b >= 1
    ensures q * b >= a
    ensures q == 0 || (q - 1) * b < a
    ensures a == 0 ==> q == 0
  {
    var q := (a + b - 1) / b;
    assert (a + b - 1) == q * b + (a + b - 1) % b;
    assert q > 0 ==> (q - 1) * b == q * b - b;
    q
  }

  /** Range i of `launch_threads_by_rows` for `per` rows per worker. */
  function CeilRange(rows: nat, per: nat, i: nat): Range
  {
    Range(Min(i * per, rows), Min(i * per + per, rows))
  }

  /** Ceiling ranges chain from 0 to `rows` once m * per reaches `rows`. */
  lemma CeilRangesTile(rows: nat, m: nat, per: nat, rs: seq<Range>)
    requires m >= 1 && m * per >= rows
    requires |rs| == m && forall i :: 0 <= i < m ==> rs[i] == CeilRange(rows, per, i)
    ensures Tiles(rs, rows)
  {
    forall i | 0 <= i < m - 1
      ensures rs[i].hi == rs[i + 1].lo
    {
      assert (i + 1) * per == i * per + per;
    }
    assert (m - 1) * per + per == m * per;
  }

  /**
   * The ranges of `launch_threads_by_rows`: range i is
   * [min(i * per, rows), min(i * per + per, rows)) with per = ceil(rows / n).
   */
  function CeilRanges(rows: nat, n: int): (rs: seq<Range>)
    ensures |rs| == (if n < 1 then 1 else n)
    ensures forall i :: 0 <= i < |rs| ==> rs[i] == CeilRange(rows, CeilDiv(rows, |rs|), i)
    ensures Tiles(rs, rows)
    ensures forall i :: 0 <= i < |rs| ==> rs[i].Size() <= CeilDiv(rows, |rs|)
    ensures forall i :: 0 <= i < |rs| && i * CeilDiv(rows, |rs|) >= rows ==> rs[i] == Range(rows, rows)
    ensures rows == 0 ==> forall i :: 0 <= i < |rs| ==> rs[i] == Range(0, 0)
  {
    var m := ThreadCount(n);
    var per := CeilDiv(rows, m);
    var rs := CeilRangeList(rows, per, m);
    CeilRangesTile(rows, m, per, rs);
    CeilRangesShape(rows, per, m, rs);
    rs
  }

  /** The m ranges of `launch_threads_by_rows` for `per` rows per worker. */
  function CeilRangeList(rows: nat, per: nat, m: nat): (rs: seq<Range>)
    ensures |rs| == m && forall i :: 0 <= i < m ==> rs[i] == CeilRange(rows, per, i)
  {
    seq(m, i requires 0 <= i < m => CeilRange(rows, per, i))
  }

  /** Ceiling ranges hold at most `per` rows, and those starting at or past `rows` are empty at `rows`. */
  lemma CeilRangesShape(rows: nat, per: nat, m: nat, rs: seq<Range>)
    requires |rs| == m && forall i :: 0 <= i < m ==> rs[i] == CeilRange(rows, per, i)
    ensures forall i :: 0 <= i < m ==> rs[i].Size() <= per
    ensures forall i :: 0 <= i < m && i * per >= rows ==> rs[i] == Range(rows, rows)
    ensures rows == 0 ==> forall i :: 0 <= i < m ==> rs[i] == Range(0, 0)
  {
  }

  /** Range i of `resize_concurrent` for quotient q and remainder rem. */
  function EvenRange(q: nat, rem: nat, i: nat): Range
  {
    var lo := i * q + Min(i, rem);
    Range(lo, lo + q + (if i < rem then 1 else 0))
  }

  /** Quotient / remainder ranges chain from 0 to n * q + rem. */
  lemma EvenRangesTile(q: nat, rem: nat, n: nat, rs: seq<Range>)
    requires 1 <= n && rem < n
    requires |rs| == n && forall i :: 0 <= i < n ==> rs[i] == EvenRange(q, rem, i)
    ensures Tiles(rs, n * q + rem)
  {
    forall i | 0 <= i < n - 1
      ensures rs[i].hi == rs[i + 1].lo
    {
      assert (i + 1) * q == i * q + q;
    }
    assert (n - 1) * q + q == n * q;
  }

  /** The first `rem` quotient / remainder ranges hold q + 1 rows, the others q. */
  lemma EvenRangesSizes(q: nat, rem: nat, n: nat, rs: seq<Range>)
    requires |rs| == n && forall i :: 0 <= i < n ==> rs[i] == EvenRange(q, rem, i)
    ensures forall i :: 0 <= i < n ==> rs[i].Size() == q + (if i < rem then 1 else 0)
    ensures forall i, j :: 0 <= i <= j < n ==> rs[j].Size() <= rs[i].Size() <= rs[j].Size() + 1
  {
  }

  /** The range list of `resize_concurrent` for quotient q and remainder rem. */
  function EvenRangeList(q: nat, rem: nat, n: nat): (rs: seq<Range>)
    ensures |rs| == n && forall i :: 0 <= i < n ==> rs[i] == EvenRange(q, rem, i)
  {
    seq(n, i requires 0 <= i < n => EvenRange(q, rem, i))
  }

  /** The quotient / remainder split tiles the height it was computed from. */
  lemma EvenRangesTileHeight(nh: nat, n: nat)
    requires n >= 1
    ensures Tiles(EvenRangeList(nh / n, nh % n, n), nh)
  {
    var q, rem := nh / n, nh % n;
    assert nh == n * q + rem;
    EvenRangesTile(q, rem, n, EvenRangeList(q, rem, n));
  }

  /**
   * The ranges of `resize_concurrent`: with q = nh / n and rem = nh % n,
   * range i starts at i * q + min(i, rem) and holds q rows, plus one when i < rem.
   */
  function EvenRanges(nh: nat, n: nat): (rs: seq<Range>)
    requires n >= 1
    ensures |rs| == n
    ensures Tiles(rs, nh)
    ensures forall i :: 0 <= i < n ==> rs[i].lo == i * (nh / n) + Min(i, nh % n)
    ensures forall i :: 0 <= i < n && i < nh % n ==> rs[i].Size() == nh / n + 1
    ensures forall i :: 0 <= i < n && i >= nh % n ==> rs[i].Size() == nh / n
    ensures forall i, j :: 0 <= i <= j < n ==> rs[j].Size() <= rs[i].Size() <= rs[j].Size() + 1
  {
    EvenRangesTileHeight(nh, n);
    EvenRangesSizes(nh / n, nh % n, n, EvenRangeList(nh / n, nh % n, n));
    EvenRangeList(nh / n, nh % n, n)
  }
}
