/**
 * Cutting an image into non-overlapping square tiles of side `crop_size`, row by
 * row, the last row and column cut short at the edge, each tile saved as
 * `crop_<n>.png` with a running counter.
 */
module CropImages {
  import opened Base
  import opened Text

  /** A tile's `(left, top, right, bottom)` box and the file it is saved as. */
  datatype Tile = Tile(left: int, top: int, right: int, bottom: int, name: string)

  function Min(a: int, b: int): int { if a <= b then a else b }

  /** `f"crop_{crop_count}.png"`. */
  function TileName(n: int): string
  {
    "crop_" + IntToString(n) + ".png"
  }

  /** Tiles saved under different counters get different names. */
  lemma TileNameInjective(m: int, n: int)
    requires m != n
    ensures TileName(m) != TileName(n)
  {
    IntToStringInjective(m, n);
    var sm, sn := IntToString(m), IntToString(n);
    assert TileName(m)[5..5 + |sm|] == sm && TileName(n)[5..5 + |sn|] == sn;
  }

  // ---------------------------------------------------------------- one axis

  /**
   * The `[start, end)` intervals one axis is cut into from `from` on: starts
   * `from`, `from + c`, ... below `extent`, each ending `c` later or at the edge.
   */
  function Spans(from: int, extent: int, c: int): seq<(int, int)>
    requires c > 0
    decreases extent - from
  {
    if from >= extent then [] else [(from, Min(from + c, extent))] + Spans(from + c, extent, c)
  }

  /** Every interval is non-empty, at most `c` long and inside `[lo, hi)`. */
  predicate Within(spans: seq<(int, int)>, lo: int, hi: int, c: int)
  {
    forall k :: 0 <= k < |spans| ==> lo <= spans[k].0 < spans[k].1 <= hi && spans[k].1 - spans[k].0 <= c
  }

  /** The intervals from `from` on are non-empty, at most `c` long and inside `[from, extent)`. */
  lemma {:induction false} SpansInside(from: int, extent: int, c: int)
    requires c > 0
    ensures Within(Spans(from, extent, c), from, extent, c)
    decreases extent - from
  {
    if from < extent {
      SpansInside(from + c, extent, c);
      SpansStep(from, extent, c);
      var r := Spans(from, extent, c);
      assert forall k :: 1 <= k < |r| ==> r[k] == Spans(from + c, extent, c)[k - 1];
    }
  }

  /** Where the axis is not yet done, the next interval starts at `from`. */
  lemma SpansStep(from: int, extent: int, c: int)
    requires c > 0 && from < extent
    ensures Spans(from, extent, c) == [(from, Min(from + c, extent))] + Spans(from + c, extent, c)
  {
  }

  /** The number of intervals containing `p`. */
  function Containing(spans: seq<(int, int)>, p: int): nat
  {
    if |spans| == 0 then 0
    else (if spans[0].0 <= p < spans[0].1 then 1 else 0) + Containing(spans[1..], p)
  }

  /** The intervals from `from` on cover every point of `[from, extent)` exactly once, and nothing else. */
  lemma {:induction false} SpansPartition(from: int, extent: int, c: int, p: int)
    requires c > 0
    ensures Containing(Spans(from, extent, c), p) == if from <= p < extent then 1 else 0
    decreases extent - from
  {
    if from < extent {
      SpansPartition(from + c, extent, c, p);
      assert Spans(from, extent, c)[1..] == Spans(from + c, extent, c);
    }
  }

  /** There are n = ceil((extent - from) / c) intervals: (n - 1) * c < extent - from <= n * c. */
  lemma {:induction false} SpansCount(from: int, extent: int, c: int)
    requires c > 0 && from < extent
    ensures var n := |Spans(from, extent, c)|;
      (n - 1) * c < extent - from <= n * c
    decreases extent - from
  {
    if from + c < extent {
      SpansCount(from + c, extent, c);
    }
  }

  // ---------------------------------------------------------------- the grid

  /** One row of tiles; the counter of its first tile is `first`. */
  function Row(row: (int, int), cols: seq<(int, int)>, first: int): (r: seq<Tile>)
    ensures |r| == |cols|
  {
    seq(|cols|, j requires 0 <= j < |cols| => Tile(cols[j].0, row.0, cols[j].1, row.1, TileName(first + j)))
  }

  /**
   * The tiles of the given rows, row by row, each row left to right, the counter
   * running on from the number of tiles already saved: tile k is crop_k.png.
   */
  function Grid(rows: seq<(int, int)>, cols: seq<(int, int)>): (r: seq<Tile>)
    ensures forall k :: 0 <= k < |r| ==> r[k].name == TileName(k)
  {
    if |rows| == 0 then []
    else
      var done := Grid(rows[..|rows| - 1], cols);
      done + Row(rows[|rows| - 1], cols, |done|)
  }

  /** Every row has one tile per column. */
  lemma {:induction false} GridSize(rows: seq<(int, int)>, cols: seq<(int, int)>)
    ensures |Grid(rows, cols)| == |rows| * |cols|
    decreases |rows|
  {
    if |rows| > 0 {
      GridSize(rows[..|rows| - 1], cols);
      ProductStep(|rows| - 1, |cols|, true);
    }
  }

  /** The tiles of a `width` by `height` image with side `c`. */
  function Tiles(width: int, height: int, c: int): seq<Tile>
    requires c > 0
  {
    Grid(Spans(0, height, c), Spans(0, width, c))
  }

  /** The tile contains the pixel (px, py). */
  predicate Contains(t: Tile, px: int, py: int)
  {
    t.left <= px < t.right && t.top <= py < t.bottom
  }

  /** The number of tiles containing (px, py). */
  function Covering(tiles: seq<Tile>, px: int, py: int): nat
  {
    if |tiles| == 0 then 0
    else Covering(tiles[..|tiles| - 1], px, py) + (if Contains(tiles[|tiles| - 1], px, py) then 1 else 0)
  }

  lemma {:induction false} CoveringAppend(a: seq<Tile>, b: seq<Tile>, px: int, py: int)
    ensures Covering(a + b, px, py) == Covering(a, px, py) + Covering(b, px, py)
    decreases |b|
  {
    if |b| > 0 {
      var n := |b| - 1;
      assert (a + b)[..|a + b| - 1] == a + b[..n];
      assert (a + b)[|a + b| - 1] == b[n];
      CoveringAppend(a, b[..n], px, py);
    } else {
      assert a + b == a;
    }
  }

  /** A row covers a pixel as often as its columns do, when the pixel's line is in the row. */
  lemma {:induction false} RowCovering(row: (int, int), cols: seq<(int, int)>, first: int, px: int, py: int)
    ensures Covering(Row(row, cols, first), px, py) ==
      if row.0 <= py < row.1 then Containing(cols, px) else 0
    decreases |cols|
  {
    if |cols| > 0 {
      var r := Row(row, cols, first);
      assert r == [r[0]] + Row(row, cols[1..], first + 1);
      CoveringAppend([r[0]], Row(row, cols[1..], first + 1), px, py);
      assert Covering([r[0]], px, py) == if Contains(r[0], px, py) then 1 else 0 by {
        assert [r[0]][..0] == [];
      }
      RowCovering(row, cols[1..], first + 1, px, py);
    }
  }

  /**
   * A pixel in no column is in no tile; a pixel in exactly one column is in as
   * many tiles as rows contain its line.
   */
  lemma {:induction false} GridCovering(rows: seq<(int, int)>, cols: seq<(int, int)>, px: int, py: int)
    ensures Containing(cols, px) == 0 ==> Covering(Grid(rows, cols), px, py) == 0
    ensures Containing(cols, px) == 1 ==> Covering(Grid(rows, cols), px, py) == RowsContaining(rows, py)
    decreases |rows|
  {
    if |rows| > 0 {
      var n := |rows| - 1;
      GridCovering(rows[..n], cols, px, py);
      var done := Grid(rows[..n], cols);
      CoveringAppend(done, Row(rows[n], cols, |done|), px, py);
      RowCovering(rows[n], cols, |done|, px, py);
      assert rows[..|rows| - 1] == rows[..n];
    }
  }

  lemma ProductStep(rc: nat, cc: nat, inRow: bool)
    ensures (rc + (if inRow then 1 else 0)) * cc == rc * cc + (if inRow then cc else 0)
  {
  }

  /** The number of rows containing line `py`, counted from the last row back. */
  function RowsContaining(rows: seq<(int, int)>, py: int): nat
  {
    if |rows| == 0 then 0
    else RowsContaining(rows[..|rows| - 1], py) + (if rows[|rows| - 1].0 <= py < rows[|rows| - 1].1 then 1 else 0)
  }

  /** Counting from either end gives the same number. */
  lemma {:induction false} RowsContainingIsContaining(rows: seq<(int, int)>, py: int)
    ensures RowsContaining(rows, py) == Containing(rows, py)
    decreases |rows|
  {
    if |rows| > 0 {
      var n := |rows| - 1;
      RowsContainingIsContaining(rows[..n], py);
      ContainingAppend(rows[..n], [rows[n]], py);
      assert rows[..n] + [rows[n]] == rows;
    }
  }

  lemma {:induction false} ContainingAppend(a: seq<(int, int)>, b: seq<(int, int)>, p: int)
    ensures Containing(a + b, p) == Containing(a, p) + Containing(b, p)
    decreases |a|
  {
    if |a| > 0 {
      assert (a + b)[1..] == a[1..] + b;
      assert (a + b)[0] == a[0];
      ContainingAppend(a[1..], b, p);
    } else {
      assert a + b == b;
    }
  }

  /**
   * The tiles partition the image: every pixel of `[0, width) x [0, height)` lies
   * in exactly one tile, and no tile reaches outside it.
   */
  lemma TilesPartition(width: int, height: int, c: int, px: int, py: int)
    requires c > 0
    ensures Covering(Tiles(width, height, c), px, py) == if 0 <= px < width && 0 <= py < height then 1 else 0
  {
    GridCovering(Spans(0, height, c), Spans(0, width, c), px, py);
    RowsContainingIsContaining(Spans(0, height, c), py);
    SpansPartition(0, height, c, py);
    SpansPartition(0, width, c, px);
  }

  /** Every tile is non-empty, at most c on a side and inside the image. */
  lemma TilesInside(width: int, height: int, c: int)
    requires c > 0
    ensures forall t :: t in Tiles(width, height, c) ==>
      && 0 <= t.left < t.right <= width && t.right - t.left <= c
      && 0 <= t.top < t.bottom <= height && t.bottom - t.top <= c
  {
    SpansInside(0, height, c);
    SpansInside(0, width, c);
    GridInside(Spans(0, height, c), Spans(0, width, c), width, height, c);
  }

  /** Tile k is saved as crop_k.png, so no two tiles share a file. */
  lemma TileNamesDistinct(width: int, height: int, c: int)
    requires c > 0
    ensures var tiles := Tiles(width, height, c);
      forall k, l :: 0 <= k < l < |tiles| ==> tiles[k].name != tiles[l].name
  {
    var tiles := Tiles(width, height, c);
    forall k, l | 0 <= k < l < |tiles|
      ensures tiles[k].name != tiles[l].name
    {
      TileNameInjective(k, l);
    }
  }

  /** There are rows times columns tiles, rows and columns being ceil(height / c) and ceil(width / c). */
  lemma TileCount(width: int, height: int, c: int)
    requires c > 0
    ensures var rows, cols := |Spans(0, height, c)|, |Spans(0, width, c)|;
      |Tiles(width, height, c)| == rows * cols && IsCeil(rows, height, c) && IsCeil(cols, width, c)
  {
    GridSize(Spans(0, height, c), Spans(0, width, c));
    SpansCeil(height, c);
    SpansCeil(width, c);
  }

  /** n is a / c rounded up: the fewest steps of c that reach a (none for a <= 0). */
  predicate IsCeil(n: int, a: int, c: int)
  {
    if a <= 0 then n == 0 else (n - 1) * c < a <= n * c
  }

  lemma SpansCeil(extent: int, c: int)
    requires c > 0
    ensures IsCeil(|Spans(0, extent, c)|, extent, c)
  {
    if extent > 0 {
      SpansCount(0, extent, c);
    }
  }

  lemma {:induction false} GridInside(rows: seq<(int, int)>, cols: seq<(int, int)>, width: int, height: int, c: int)
    requires Within(rows, 0, height, c) && Within(cols, 0, width, c)
    ensures forall t :: t in Grid(rows, cols) ==>
      0 <= t.left < t.right <= width && t.right - t.left <= c
      && 0 <= t.top < t.bottom <= height && t.bottom - t.top <= c
    decreases |rows|
  {
    if |rows| > 0 {
      var n := |rows| - 1;
      GridInside(rows[..n], cols, width, height, c);
    }
  }

  // ---------------------------------------------------------------- crop_image

  /**
   * `crop_image` on a `width` by `height` image: a zero `crop_size` makes `range`
   * raise ValueError; a negative one makes both ranges empty; otherwise the
   * tiles are cut row by row, each row left to right, with a running counter.
   */
  method CropImage(width: nat, height: nat, cropSize: int) returns (r: Result<seq<Tile>>)
    ensures cropSize == 0 <==> r == Err(ValueError)
    ensures cropSize < 0 ==> r == Ok([])
    ensures cropSize > 0 ==> r == Ok(Tiles(width, height, cropSize))
  {
    if cropSize == 0 {
      return Err(ValueError);
    }
    if cropSize < 0 {
      return Ok([]);
    }
    var c := cropSize;
    ghost var rowsDone: seq<(int, int)> := [];
    var tiles: seq<Tile> := [];
    var cropCount := 0;
    var top := 0;
    while top < height
      invariant 0 <= top
      invariant Spans(0, height, c) == rowsDone + Spans(top, height, c)
      invariant tiles == Grid(rowsDone, Spans(0, width, c))
      invariant cropCount == |tiles|
      decreases height - top
    {
      var row, next := CutRow(top, width, height, c, cropCount);
      ghost var span := (top, Min(top + c, height));
      SpansStep(top, height, c);
      assert rowsDone + [span] + Spans(top + c, height, c) == rowsDone + Spans(top, height, c);
      assert (rowsDone + [span])[..|rowsDone|] == rowsDone;
      tiles := tiles + row;
      cropCount := next;
      rowsDone := rowsDone + [span];
      top := top + c;
    }
    assert rowsDone == Spans(0, height, c);
    return Ok(tiles);
  }

  /**
   * The inner loop of `crop_image` for the row at `top`: a tile at every left in
   * range(0, width, c), clipped to the image, named with the running counter.
   */
  method CutRow(top: int, width: int, height: int, c: int, cropCount: int) returns (tiles: seq<Tile>, next: int)
    requires c > 0
    ensures tiles == Row((top, Min(top + c, height)), Spans(0, width, c), cropCount)
    ensures next == cropCount + |tiles|
  {
    ghost var target := Row((top, Min(top + c, height)), Spans(0, width, c), cropCount);
    ghost var colsDone: seq<(int, int)> := [];
    tiles := [];
    next := cropCount;
    var left := 0;
    while left < width
      invariant 0 <= left
      invariant Spans(0, width, c) == colsDone + Spans(left, width, c)
      invariant tiles == target[..|colsDone|]
      invariant next == cropCount + |colsDone|
      decreases width - left
    {
      var right := Min(left + c, width);
      var bottom := Min(top + c, height);
      var tile := Tile(left, top, right, bottom, TileName(next));
      SpansStep(left, width, c);
      assert colsDone + [(left, right)] + Spans(left + c, width, c) == colsDone + Spans(left, width, c);
      assert target[|colsDone|] == tile;
      PrefixSnoc(target, |colsDone|);
      tiles := tiles + [tile];
      next := next + 1;
      colsDone := colsDone + [(left, right)];
      left := left + c;
    }
    assert target[..|colsDone|] == target;
  }
}
