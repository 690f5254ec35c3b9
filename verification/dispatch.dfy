/**
 * Row-parallel dispatch. `launch_threads_by_rows` (utils_conc.c) starts one
 * thread per range of `CeilRanges` and joins them all; `resize_concurrent`
 * (resize.c) does the same over `EvenRanges`. Every worker reads only the
 * source image and writes only the destination rows of its own range, so the
 * threads commute and the dispatch is modelled as a sequential left fold of
 * the workers over the ranges in order.
 */
module Dispatch {
  import opened Pixels
  import opened Partition

  /**
   * What a worker does to one destination row: given the row index and the
   * row's current contents, the contents it leaves behind.
   */
  type RowWork = (nat, Row) -> Row

  /**
   * One worker over range `r`: the row loop `for (y = y0; y < y1; y++)` of
   * every worker. Rows in `r` are rewritten from their original contents, all
   * other rows are untouched.
   */
  function RunWorker(work: RowWork, r: Range, g: Grid): (g': Grid)
    ensures |g'| == |g|
    ensures forall y :: 0 <= y < |g| ==> g'[y] == if r.Contains(y) then work(y, g[y]) else g[y]
  {
    RowsFrom(work, r.lo, r.hi, g)
  }

  /**
   * The worker's row loop from row `y` on: one row rewritten per step, rows
   * at or past the end of the grid skipped. Rows of [y, hi) come out
   * rewritten, every other row as it went in.
   */
  function RowsFrom(work: RowWork, y: nat, hi: nat, g: Grid): (g': Grid)
    ensures |g'| == |g|
    ensures forall z :: 0 <= z < |g| ==> g'[z] == if y <= z < hi then work(z, g[z]) else g[z]
    decreases hi - y
  {
    if y >= hi then g
    else
      var next := if y < |g| then g[y := work(y, g[y])] else g;
      RowsFrom(work, y + 1, hi, next)
  }

  /** The workers of all ranges, run one after the other in range order. */
  function RunAll(work: RowWork, rs: seq<Range>, g: Grid): Grid
    decreases |rs|
  {
    if |rs| == 0 then g else RunAll(work, rs[1..], RunWorker(work, rs[0], g))
  }

  /** The reference result: every row rewritten exactly once. */
  function Everywhere(work: RowWork, g: Grid): (g': Grid)
    ensures |g'| == |g|
  {
    seq(|g|, y requires 0 <= y < |g| => work(y, g[y]))
  }

  /**
   * Running the workers of a chain from `a` to `b` rewrites each row of
   * [a, b) once, from its original contents, and leaves every other row alone.
   */
  lemma {:induction false} RunChain(work: RowWork, rs: seq<Range>, a: nat, b: nat, g: Grid)
    requires Covers(rs, a, b)
    ensures |RunAll(work, rs, g)| == |g|
    ensures forall y :: 0 <= y < |g| ==>
              RunAll(work, rs, g)[y] == if a <= y < b then work(y, g[y]) else g[y]
    decreases |rs|
  {
    if |rs| > 0 {
      var g1 := RunWorker(work, rs[0], g);
      CoversTail(rs, a, b);
      RunChain(work, rs[1..], rs[0].hi, b, g1);
      CoversBounds(rs, a, b, 0);
    }
  }

  /** Over a tiling of all rows, the sequential run equals the reference result. */
  lemma RunTiles(work: RowWork, rs: seq<Range>, g: Grid)
    requires Tiles(rs, |g|)
    ensures RunAll(work, rs, g) == Everywhere(work, g)
  {
    RunChain(work, rs, 0, |g|, g);
  }

  /**
   * `launch_threads_by_rows`: whatever the thread count `n`, the destination
   * ends up with every row rewritten exactly once.
   */
  function LaunchByRows(work: RowWork, n: int, g: Grid): (g': Grid)
    ensures g' == Everywhere(work, g)
  {
    RunTiles(work, CeilRanges(|g|, n), g);
    RunAll(work, CeilRanges(|g|, n), g)
  }

  /**
   * The dispatch of `resize_concurrent` over the target rows: the same result
   * for every thread count n >= 1.
   */
  function LaunchResize(work: RowWork, n: nat, g: Grid): (g': Grid)
    requires n >= 1
    ensures g' == Everywhere(work, g)
  {
    RunTiles(work, EvenRanges(|g|, n), g);
    RunAll(work, EvenRanges(|g|, n), g)
  }
}
