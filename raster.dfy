/**
 * The coverage grid (heatmap) shared by the three heatmap builders: windows of
 * cells derived from a bounding box or from a point, and the per-level
 * accumulation that paints every window of a level as 1 into a fresh temporary
 * grid and then adds that grid once, so each level adds 0 or 1 to every cell.
 */
module Raster {

  /** The cells rows [rowLo, rowHi) x columns [colLo, colHi) (half-open, as a numpy slice). */
  datatype Rect = Rect(rowLo: int, rowHi: int, colLo: int, colHi: int)

  /** The four fields of a detection record that the heatmap reads, in pixels. */
  datatype Box = Box(xCenter: real, yCenter: real, width: real, height: real)

  /** A ground-truth point in image coordinates (column x, row y). */
  datatype Point = Point(x: int, y: int)

  predicate Covers(r: Rect, i: int, j: int)
  {
    r.rowLo <= i < r.rowHi && r.colLo <= j < r.colHi
  }

  function Max(a: int, b: int): int { if a >= b then a else b }

  function Min(a: int, b: int): int { if a <= b then a else b }

  /** Python's `int(x)` on a float: truncation toward zero. */
  function Trunc(x: real): (r: int)
    ensures 0.0 <= x ==> 0 <= r && r as real <= x < r as real + 1.0
    ensures x < 0.0 ==> r <= 0 && r as real - 1.0 < x <= r as real
  {
    if x >= 0.0 then x.Floor else -((-x).Floor)
  }

  // ---------------------------------------------------------------- windows

  /**
   * The stop of a slice `[..stop]` whose `stop` is at most the axis length `n`, as
   * numpy reads it: a negative stop counts from the end of the axis.
   */
  function NumpyStop(stop: int, n: nat): int
  {
    if stop < 0 then Max(0, n + stop) else stop
  }

  /** The stop clamped to the axis on both sides, as the clamping code intends. */
  function ClampStop(stop: int, n: nat): (r: int)
    ensures 0 <= r <= n
  {
    Max(0, Min(n, stop))
  }

  /** `x_min`/`x_max`/`y_min`/`y_max` of a box: truncated corners, clamped below by 0 and above by the grid. */
  function BoxRectAsWritten(b: Box, height: nat, width: nat): Rect
  {
    var xMin := Max(0, Trunc(b.xCenter - b.width / 2.0));
    var yMin := Max(0, Trunc(b.yCenter - b.height / 2.0));
    var xMax := Min(width, Trunc(b.xCenter + b.width / 2.0));
    var yMax := Min(height, Trunc(b.yCenter + b.height / 2.0));
    Rect(yMin, NumpyStop(yMax, height), xMin, NumpyStop(xMax, width))
  }

  /** The window of cells a box paints once a negative slice stop is read as 0. */
  function BoxRect(b: Box, height: nat, width: nat): (r: Rect)
    ensures 0 <= r.rowLo && r.rowHi <= height && 0 <= r.colLo && r.colHi <= width
  {
    Rect(Max(0, Trunc(b.yCenter - b.height / 2.0)), ClampStop(Trunc(b.yCenter + b.height / 2.0), height),
         Max(0, Trunc(b.xCenter - b.width / 2.0)), ClampStop(Trunc(b.xCenter + b.width / 2.0), width))
  }

  /** The window of side `2*(s//2)+1` around a point, clamped to the grid, as written. */
  function PointWindowAsWritten(p: Point, s: int, height: nat, width: nat): Rect
  {
    var xMin := Max(0, p.x - s / 2);
    var xMax := Min(width, p.x + s / 2 + 1);
    var yMin := Max(0, p.y - s / 2);
    var yMax := Min(height, p.y + s / 2 + 1);
    Rect(yMin, NumpyStop(yMax, height), xMin, NumpyStop(xMax, width))
  }

  /** The window a point marks once a negative slice stop is read as 0. */
  function PointWindow(p: Point, s: int, height: nat, width: nat): (r: Rect)
    ensures 0 <= r.rowLo && r.rowHi <= height && 0 <= r.colLo && r.colHi <= width
  {
    Rect(Max(0, p.y - s / 2), ClampStop(p.y + s / 2 + 1, height),
         Max(0, p.x - s / 2), ClampStop(p.x + s / 2 + 1, width))
  }

  /** Whenever neither clamped stop of a box is negative, the window as written and the corrected window agree. */
  lemma BoxRectAgrees(b: Box, height: nat, width: nat)
    requires Trunc(b.yCenter + b.height / 2.0) >= 0 && Trunc(b.xCenter + b.width / 2.0) >= 0
    ensures BoxRectAsWritten(b, height, width) == BoxRect(b, height, width)
  {
  }

  /** Whenever neither clamped stop of a point's window is negative, the window as written and the corrected window agree. */
  lemma PointWindowAgrees(p: Point, s: int, height: nat, width: nat)
    requires p.y + s / 2 + 1 >= 0 && p.x + s / 2 + 1 >= 0
    ensures PointWindowAsWritten(p, s, height, width) == PointWindow(p, s, height, width)
  {
  }

  /**
   * A box marks exactly the grid cells of the half-open box between its
   * truncated corners: rows [int(yc - h/2), int(yc + h/2)) and the same for columns.
   */
  lemma BoxRectCells(b: Box, height: nat, width: nat, i: int, j: int)
    ensures Covers(BoxRect(b, height, width), i, j) <==>
      && 0 <= i < height && 0 <= j < width
      && Trunc(b.yCenter - b.height / 2.0) <= i < Trunc(b.yCenter + b.height / 2.0)
      && Trunc(b.xCenter - b.width / 2.0) <= j < Trunc(b.xCenter + b.width / 2.0)
  {
  }

  /** A point marks the grid cells within `s//2` of it on both axes. */
  lemma PointWindowCells(p: Point, s: int, height: nat, width: nat, i: int, j: int)
    ensures Covers(PointWindow(p, s, height, width), i, j) <==>
      && 0 <= i < height && 0 <= j < width
      && p.y - s / 2 <= i <= p.y + s / 2
      && p.x - s / 2 <= j <= p.x + s / 2
  {
  }

  /** Away from the border the window has side `2*(s//2)+1`: 3 for s = 3 but 21 for s = 20. */
  lemma PointWindowSide(p: Point, s: nat, height: nat, width: nat)
    requires s / 2 <= p.x && p.x + s / 2 + 1 <= width
    requires s / 2 <= p.y && p.y + s / 2 + 1 <= height
    ensures var r := PointWindow(p, s, height, width);
      r.colHi - r.colLo == 2 * (s / 2) + 1 && r.rowHi - r.rowLo == 2 * (s / 2) + 1
    ensures s == 20 ==> PointWindow(p, s, height, width).colHi - PointWindow(p, s, height, width).colLo == 21
  {
  }

  /**
   * As written, a point left of the grid whose clamped stop is negative wraps:
   * the point (-5, 100) with s = 3 marks columns 0..636 of a 640-wide grid.
   */
  lemma PointWindowWrapsAsWritten()
    ensures var r := PointWindowAsWritten(Point(-5, 100), 3, 640, 640);
      Covers(r, 100, 0) && Covers(r, 100, 636) && r.colHi == 637
    ensures forall i, j :: !Covers(PointWindow(Point(-5, 100), 3, 640, 640), i, j)
  {
  }

  /** As written, a box above the grid wraps the same way and marks most of the grid. */
  lemma BoxRectWrapsAsWritten()
    ensures var r := BoxRectAsWritten(Box(100.0, -20.0, 10.0, 10.0), 640, 640);
      Covers(r, 0, 100) && Covers(r, 624, 100) && r.rowHi == 625
    ensures forall i, j :: !Covers(BoxRect(Box(100.0, -20.0, 10.0, 10.0), 640, 640), i, j)
  {
    assert Trunc(-20.0 + 10.0 / 2.0) == -15;
    assert Trunc(-20.0 - 10.0 / 2.0) == -25;
  }

  /** A point outside the grid marks nothing. */
  lemma PointOutsideMarksNothing(p: Point, s: int, height: nat, width: nat, i: int, j: int)
    requires s >= 0
    requires p.x + s / 2 < 0 || p.y + s / 2 < 0 || p.x - s / 2 >= width || p.y - s / 2 >= height
    ensures !Covers(PointWindow(p, s, height, width), i, j)
  {
    PointWindowCells(p, s, height, width, i, j);
  }

  // ---------------------------------------------------------------- per-level masks

  /** Some window of the level covers the cell. */
  predicate Marked(rects: seq<Rect>, i: int, j: int)
  {
    exists k :: 0 <= k < |rects| && Covers(rects[k], i, j)
  }

  /** What one level adds to a cell: 1 if any of its windows covers it, else 0. */
  function Mask(rects: seq<Rect>, i: int, j: int): int
  {
    if Marked(rects, i, j) then 1 else 0
  }

  /** The heatmap value of a cell after accumulating `levels` into a zero grid. */
  function Coverage(levels: seq<seq<Rect>>, i: int, j: int): int
  {
    if |levels| == 0 then 0
    else Coverage(levels[..|levels| - 1], i, j) + Mask(levels[|levels| - 1], i, j)
  }

  lemma MarkedSnoc(rects: seq<Rect>, r: Rect, i: int, j: int)
    ensures Marked(rects + [r], i, j) <==> Marked(rects, i, j) || Covers(r, i, j)
  {
    if Marked(rects, i, j) {
      var k :| 0 <= k < |rects| && Covers(rects[k], i, j);
      assert (rects + [r])[k] == rects[k];
    }
    if Covers(r, i, j) {
      assert (rects + [r])[|rects|] == r;
    }
  }

  /** Every cell of a heatmap built from n levels lies in [0, n]. */
  lemma {:induction false} CoverageBounds(levels: seq<seq<Rect>>, i: int, j: int)
    ensures 0 <= Coverage(levels, i, j) <= |levels|
  {
    if |levels| > 0 {
      CoverageBounds(levels[..|levels| - 1], i, j);
    }
  }

  /** Accumulating two batches of levels one after the other adds their heatmaps. */
  lemma {:induction false} CoverageAppend(a: seq<seq<Rect>>, b: seq<seq<Rect>>, i: int, j: int)
    ensures Coverage(a + b, i, j) == Coverage(a, i, j) + Coverage(b, i, j)
    decreases |b|
  {
    if |b| == 0 {
      assert a + b == a;
    } else {
      var b' := b[..|b| - 1];
      assert (a + b)[..|a + b| - 1] == a + b';
      assert (a + b)[|a + b| - 1] == b[|b| - 1];
      CoverageAppend(a, b', i, j);
    }
  }

  /** The order in which levels are accumulated does not matter (accumulate-then-add commutes). */
  lemma CoverageOrderIrrelevant(a: seq<seq<Rect>>, b: seq<seq<Rect>>, i: int, j: int)
    ensures Coverage(a + b, i, j) == Coverage(b + a, i, j)
  {
    CoverageAppend(a, b, i, j);
    CoverageAppend(b, a, i, j);
  }

  /** A further level never lowers a cell and raises it by at most 1. */
  lemma CoverageMonotone(levels: seq<seq<Rect>>, level: seq<Rect>, i: int, j: int)
    ensures Coverage(levels, i, j) <= Coverage(levels + [level], i, j) <= Coverage(levels, i, j) + 1
  {
    assert (levels + [level])[..|levels|] == levels;
  }

  /** 640x640 grid, s = 3, one point at (320, 320): exactly the 3x3 block around it is marked. */
  lemma SinglePointExample(i: int, j: int)
    requires 0 <= i < 640 && 0 <= j < 640
    ensures Mask([PointWindow(Point(320, 320), 3, 640, 640)], i, j) ==
      if 319 <= i <= 321 && 319 <= j <= 321 then 1 else 0
  {
    var r := PointWindow(Point(320, 320), 3, 640, 640);
    assert Marked([r], i, j) <==> Covers(r, i, j) by {
      if Marked([r], i, j) {
        var k :| 0 <= k < 1 && Covers([r][k], i, j);
      }
      if Covers(r, i, j) {
        assert [r][0] == r;
      }
    }
  }

  // ---------------------------------------------------------------- in-place accumulation

  /** `temp[rowLo:rowHi, colLo:colHi] = 1` for a window with non-negative bounds. */
  method PaintRect(temp: array2<int>, r: Rect)
    modifies temp
    ensures forall i, j :: 0 <= i < temp.Length0 && 0 <= j < temp.Length1 ==>
      temp[i, j] == if Covers(r, i, j) then 1 else old(temp[i, j])
  {
    var rowLo, rowHi := Max(0, r.rowLo), Min(temp.Length0, r.rowHi);
    var colLo, colHi := Max(0, r.colLo), Min(temp.Length1, r.colHi);
    rowHi := Max(rowLo, rowHi);
    colHi := Max(colLo, colHi);
    var i := rowLo;
    while i < rowHi
      invariant rowLo <= i <= rowHi
      invariant forall a, b :: 0 <= a < temp.Length0 && 0 <= b < temp.Length1 ==>
        temp[a, b] == if Covers(r, a, b) && a < i then 1 else old(temp[a, b])
    {
      var j := colLo;
      while j < colHi
        invariant colLo <= j <= colHi
        invariant forall a, b :: 0 <= a < temp.Length0 && 0 <= b < temp.Length1 ==>
          temp[a, b] == if Covers(r, a, b) && (a < i || (a == i && b < j)) then 1 else old(temp[a, b])
      {
        temp[i, j] := 1;
        j := j + 1;
      }
      i := i + 1;
    }
  }

  /** `grid += temp`. */
  method AddInto(grid: array2<int>, temp: array2<int>)
    requires temp != grid
    requires temp.Length0 == grid.Length0 && temp.Length1 == grid.Length1
    modifies grid
    ensures forall i, j :: 0 <= i < grid.Length0 && 0 <= j < grid.Length1 ==>
      grid[i, j] == old(grid[i, j]) + temp[i, j]
  {
    var i := 0;
    while i < grid.Length0
      invariant 0 <= i <= grid.Length0
      invariant forall a, b :: 0 <= a < grid.Length0 && 0 <= b < grid.Length1 ==>
        grid[a, b] == old(grid[a, b]) + if a < i then temp[a, b] else 0
    {
      var j := 0;
      while j < grid.Length1
        invariant 0 <= j <= grid.Length1
        invariant forall a, b :: 0 <= a < grid.Length0 && 0 <= b < grid.Length1 ==>
          grid[a, b] == old(grid[a, b]) + if a < i || (a == i && b < j) then temp[a, b] else 0
      {
        grid[i, j] := grid[i, j] + temp[i, j];
        j := j + 1;
      }
      i := i + 1;
    }
  }

  /**
   * One level: every window is painted as 1 into a fresh zero grid, which is then
   * added to `grid` once, so each cell rises by exactly 0 or 1.
   */
  method AccumulateLevel(grid: array2<int>, rects: seq<Rect>)
    modifies grid
    ensures forall i, j :: 0 <= i < grid.Length0 && 0 <= j < grid.Length1 ==>
      grid[i, j] == old(grid[i, j]) + Mask(rects, i, j)
  {
    var temp := new int[grid.Length0, grid.Length1]((i, j) => 0);
    var k := 0;
    while k < |rects|
      invariant 0 <= k <= |rects|
      invariant unchanged(grid)
      invariant forall i, j :: 0 <= i < temp.Length0 && 0 <= j < temp.Length1 ==>
        temp[i, j] == Mask(rects[..k], i, j)
    {
      forall i, j | 0 <= i < temp.Length0 && 0 <= j < temp.Length1
        ensures Mask(rects[..k + 1], i, j) == if Covers(rects[k], i, j) then 1 else Mask(rects[..k], i, j)
      {
        assert rects[..k + 1] == rects[..k] + [rects[k]];
        MarkedSnoc(rects[..k], rects[k], i, j);
      }
      PaintRect(temp, rects[k]);
      k := k + 1;
    }
    assert rects[..k] == rects;
    AddInto(grid, temp);
  }
}
