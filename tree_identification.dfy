/**
 * Tree detection from the accumulated detections of many zoom levels: the
 * per-level JSON files are selected by level and painted into a coverage grid,
 * weak cells are dropped relative to the grid's maximum, the surviving cells are
 * clustered, and each cluster yields one value-weighted centre.
 */
module TreeIdentification {
  import opened Base
  import opened Text
  import opened Raster
  import InitialChecks

  // ---------------------------------------------------------------- level selection

  /** `int(name.split('_')[1])`: IndexError without a `_`, ValueError on a non-integer token. */
  function LevelOf(name: string): (r: Result<int>)
    ensures r == Err(IndexError) <==> '_' !in name
    ensures r.Err? ==> r.error != TypeError
  {
    SplitSingle(name, '_');
    var parts := Split(name, '_');
    if |parts| < 2 then Err(IndexError)
    else match ParseInt(parts[1])
      case None => Err(ValueError)
      case Some(v) => Ok(v)
  }

  /** A level is the integer value of the name's second `_`-token. */
  lemma LevelOfParses(name: string)
    ensures LevelOf(name).Ok? <==> |Split(name, '_')| >= 2 && ParseInt(Split(name, '_')[1]).Some?
    ensures LevelOf(name).Ok? ==> LevelOf(name).value == ParseInt(Split(name, '_')[1]).value
  {
  }

  /**
   * The level is read from the token between the first two underscores, whatever
   * follows the second one: its integer value, or ValueError when it is no integer.
   */
  lemma LevelOfTokens(a: string, t: string, b: string)
    requires '_' !in a && '_' !in t
    ensures LevelOf(a + ['_'] + t + ['_'] + b) ==
      if ParseInt(t).Some? then Ok(ParseInt(t).value) else Err(ValueError)
  {
    var name := a + ['_'] + t + ['_'] + b;
    assert name == a + ['_'] + (t + ['_'] + b);
    SplitConcat(t, b, '_');
    SplitConcat(a, t + ['_'] + b, '_');
    SplitNoSep(a, '_');
    SplitNoSep(t, '_');
    assert Split(name, '_')[1] == t;
  }

  /**
   * The chained test `min_level <= level <= max_level` as Python evaluates it: the
   * second comparison only runs when the first holds, and comparing with `None`
   * raises TypeError.
   */
  function ChainedInRange(level: int, minLevel: Option<int>, maxLevel: Option<int>): Result<bool>
  {
    if minLevel.None? then Err(TypeError)
    else if !(minLevel.value <= level) then Ok(false)
    else if maxLevel.None? then Err(TypeError)
    else Ok(level <= maxLevel.value)
  }

  /** Whether one file survives the level comprehension, or the error it raises. */
  function KeepByLevel(name: string, minLevel: Option<int>, maxLevel: Option<int>): Result<bool>
  {
    var level :- LevelOf(name);
    ChainedInRange(level, minLevel, maxLevel)
  }

  /**
   * The list comprehension over the file names; the first file that raises aborts
   * it. `key` gives the string whose second `_`-token is the level: the name
   * itself here, the name without its extension for the shapefile heatmap.
   */
  function LevelComprehension(names: seq<string>, key: string -> string, minLevel: Option<int>, maxLevel: Option<int>)
    : (r: Result<seq<string>>)
    ensures r.Ok? ==> |r.value| <= |names|
    ensures r.Ok? ==> forall x :: x in r.value ==> x in names
  {
    if |names| == 0 then Ok([])
    else
      var last := names[|names| - 1];
      var kept :- LevelComprehension(names[..|names| - 1], key, minLevel, maxLevel);
      var keep :- KeepByLevel(key(last), minLevel, maxLevel);
      Ok(kept + if keep then [last] else [])
  }

  /** The name whose level is read from itself. */
  function WholeName(name: string): string { name }

  /** The file's level is an integer in [lo, hi]. */
  predicate LevelIn(name: string, lo: int, hi: int)
  {
    LevelOf(name).Ok? && lo <= LevelOf(name).value <= hi
  }

  /** The test the comprehension applies once both bounds are given. */
  function InRangeBy(key: string -> string, lo: int, hi: int): string -> bool
  {
    n => LevelIn(key(n), lo, hi)
  }

  /** Every file name carries an integer level. */
  predicate AllLevelled(names: seq<string>, key: string -> string)
  {
    forall k :: 0 <= k < |names| ==> LevelOf(key(names[k])).Ok?
  }

  lemma AllLevelledSnoc(names: seq<string>, key: string -> string)
    requires |names| > 0
    ensures AllLevelled(names, key) <==>
      AllLevelled(names[..|names| - 1], key) && LevelOf(key(names[|names| - 1])).Ok?
  {
    var init := names[..|names| - 1];
    assert forall k :: 0 <= k < |init| ==> init[k] == names[k];
  }

  /**
   * With both bounds given the comprehension succeeds exactly when every name
   * carries an integer level, and then keeps, in order, the names whose level
   * lies in [lo, hi].
   */
  lemma {:induction false} ComprehensionBothBounds(names: seq<string>, key: string -> string, lo: int, hi: int)
    ensures LevelComprehension(names, key, Some(lo), Some(hi)).Ok? <==> AllLevelled(names, key)
    ensures AllLevelled(names, key) ==>
      LevelComprehension(names, key, Some(lo), Some(hi)).value == Filter(names, InRangeBy(key, lo, hi))
  {
    if |names| > 0 {
      ComprehensionBothBounds(names[..|names| - 1], key, lo, hi);
      AllLevelledSnoc(names, key);
    }
  }

  /** A lower bound of None makes the comprehension raise TypeError on any non-empty list. */
  lemma {:induction false} ComprehensionMinMissing(names: seq<string>, key: string -> string, maxLevel: Option<int>)
    requires |names| > 0
    ensures LevelComprehension(names, key, None, maxLevel).Err?
    decreases |names|
  {
    if |names| > 1 {
      ComprehensionMinMissing(names[..|names| - 1], key, maxLevel);
    }
  }

  /** The file's level is an integer below `lo`. */
  predicate LevelBelow(name: string, lo: int)
  {
    LevelOf(name).Ok? && LevelOf(name).value < lo
  }

  /** Every file's level is an integer below `lo`. */
  predicate AllBelow(names: seq<string>, key: string -> string, lo: int)
  {
    forall k :: 0 <= k < |names| ==> LevelBelow(key(names[k]), lo)
  }

  lemma AllBelowSnoc(names: seq<string>, key: string -> string, lo: int)
    requires |names| > 0
    ensures AllBelow(names, key, lo) <==>
      AllBelow(names[..|names| - 1], key, lo) && LevelBelow(key(names[|names| - 1]), lo)
  {
    var init := names[..|names| - 1];
    assert forall k :: 0 <= k < |init| ==> init[k] == names[k];
  }

  /**
   * With only a lower bound, a file whose level reaches it raises TypeError: the
   * comprehension can only succeed when every level is below the bound, and then
   * it keeps nothing.
   */
  lemma {:induction false} ComprehensionMaxMissing(names: seq<string>, key: string -> string, lo: int)
    ensures LevelComprehension(names, key, Some(lo), None).Ok? <==> AllBelow(names, key, lo)
    ensures LevelComprehension(names, key, Some(lo), None).Ok? ==>
      LevelComprehension(names, key, Some(lo), None).value == []
  {
    if |names| > 0 {
      ComprehensionMaxMissing(names[..|names| - 1], key, lo);
      AllBelowSnoc(names, key, lo);
    }
  }

  predicate IsJsonName(name: string) { EndsWith(name, ".json") }

  /** The JSON files of the listing, filtered by level only when a bound is given. */
  function SelectJsonFiles(listing: seq<string>, minLevel: Option<int>, maxLevel: Option<int>)
    : (r: Result<seq<string>>)
    ensures minLevel.None? && maxLevel.None? ==> r == Ok(Filter(listing, IsJsonName))
    ensures r.Ok? ==> forall x :: x in r.value ==> x in listing && IsJsonName(x)
  {
    var jsons := Filter(listing, IsJsonName);
    if minLevel.Some? || maxLevel.Some? then LevelComprehension(jsons, WholeName, minLevel, maxLevel)
    else Ok(jsons)
  }

  // ---------------------------------------------------------------- the heatmap

  /** `(height, width)` of the first image file of the listing; ValueError when there is none. */
  function ImageShape(files: seq<InitialChecks.ImageFile>): (r: Result<(nat, nat)>)
    decreases |files|, 1
    ensures r.Err? <==> forall k :: 0 <= k < |files| ==> !InitialChecks.IsImageName(files[k].name)
    ensures r.Err? ==> r.error == ValueError
    ensures r.Ok? ==> exists k ::
      && 0 <= k < |files| && InitialChecks.IsImageName(files[k].name)
      && (forall m :: 0 <= m < k ==> !InitialChecks.IsImageName(files[m].name))
      && r.value == (files[k].size.height, files[k].size.width)
  {
    if |files| == 0 then Err(ValueError)
    else if InitialChecks.IsImageName(files[0].name) then Ok((files[0].size.height, files[0].size.width))
    else
      FirstImageShifts(files);
      ImageShape(files[1..])
  }

  /** The first image of a listing that does not start with one is the first image of its tail. */
  lemma FirstImageShifts(files: seq<InitialChecks.ImageFile>)
    requires |files| > 0 && !InitialChecks.IsImageName(files[0].name)
    decreases |files|, 0
    ensures var r := ImageShape(files[1..]);
      && ((forall k :: 0 <= k < |files| ==> !InitialChecks.IsImageName(files[k].name)) <==> r.Err?)
      && (r.Ok? ==> exists k ::
           && 0 <= k < |files| && InitialChecks.IsImageName(files[k].name)
           && (forall m :: 0 <= m < k ==> !InitialChecks.IsImageName(files[m].name))
           && r.value == (files[k].size.height, files[k].size.width))
  {
    var r := ImageShape(files[1..]);
    assert forall k :: 1 <= k < |files| ==> files[k] == files[1..][k - 1];
    if r.Ok? {
      var k :| && 0 <= k < |files[1..]| && InitialChecks.IsImageName(files[1..][k].name)
               && (forall m :: 0 <= m < k ==> !InitialChecks.IsImageName(files[1..][m].name))
               && r.value == (files[1..][k].size.height, files[1..][k].size.width);
      assert forall m :: 1 <= m < k + 1 ==> files[m] == files[1..][m - 1];
    }
  }

  /** The window each detection box of one level paints. */
  function LevelRects(boxes: seq<Box>, height: nat, width: nat): seq<Rect>
  {
    seq(|boxes|, k requires 0 <= k < |boxes| => BoxRect(boxes[k], height, width))
  }

  /** The windows of every selected level, `load` standing for reading a file's detections. */
  function BoxLevels(names: seq<string>, load: string -> seq<Box>, height: nat, width: nat)
    : seq<seq<Rect>>
  {
    seq(|names|, k requires 0 <= k < |names| => LevelRects(load(names[k]), height, width))
  }

  /** One more selected level adds its own mask to every cell's count. */
  lemma BoxLevelsStep(names: seq<string>, k: nat, load: string -> seq<Box>, height: nat, width: nat)
    requires k < |names|
    ensures forall i, j ::
      Coverage(BoxLevels(names[..k + 1], load, height, width), i, j) ==
        Coverage(BoxLevels(names[..k], load, height, width), i, j)
        + Mask(LevelRects(load(names[k]), height, width), i, j)
  {
    var levels := BoxLevels(names[..k + 1], load, height, width);
    assert levels[..k] == BoxLevels(names[..k], load, height, width);
  }

  /**
   * The heatmap of the selected levels. It fails as the source does: first with
   * ValueError when there is no image to size the grid, then with the error the
   * level comprehension raises; otherwise every cell counts the levels that have
   * a box painting it.
   */
  method CreateHeatmap(images: seq<InitialChecks.ImageFile>, listing: seq<string>,
                       load: string -> seq<Box>, minLevel: Option<int>, maxLevel: Option<int>)
    returns (r: Result<array2<int>>)
    ensures ImageShape(images).Err? ==> r == Err(ImageShape(images).error)
    ensures ImageShape(images).Ok? ==> (r.Err? <==> SelectJsonFiles(listing, minLevel, maxLevel).Err?)
    ensures r.Ok? ==>
      var (height, width) := ImageShape(images).value;
      var names := SelectJsonFiles(listing, minLevel, maxLevel).value;
      && fresh(r.value) && r.value.Length0 == height && r.value.Length1 == width
      && forall i, j :: 0 <= i < height && 0 <= j < width ==>
           r.value[i, j] == Coverage(BoxLevels(names, load, height, width), i, j)
           && 0 <= r.value[i, j] <= |names|
  {
    var shape :- ImageShape(images);
    var (height, width) := shape;
    var grid := new int[height, width]((i, j) => 0);
    var names :- SelectJsonFiles(listing, minLevel, maxLevel);
    var k := 0;
    while k < |names|
      invariant 0 <= k <= |names|
      invariant forall i, j :: 0 <= i < height && 0 <= j < width ==>
        grid[i, j] == Coverage(BoxLevels(names[..k], load, height, width), i, j)
    {
      var boxes := load(names[k]);
      BoxLevelsStep(names, k, load, height, width);
      AccumulateLevel(grid, LevelRects(boxes, height, width));
      k := k + 1;
    }
    assert names[..k] == names;
    forall i, j | 0 <= i < height && 0 <= j < width
      ensures 0 <= Coverage(BoxLevels(names, load, height, width), i, j) <= |names|
    {
      CoverageBounds(BoxLevels(names, load, height, width), i, j);
    }
    return Ok(grid);
  }

  // ---------------------------------------------------------------- density filter

  /** A heatmap as rows of cells. */
  type Matrix = seq<seq<int>>

  /** All rows have the length of the first. */
  predicate IsGrid(g: Matrix)
  {
    forall i :: 0 <= i < |g| ==> |g[i]| == |g[0]|
  }

  predicate InGrid(g: Matrix, i: int, j: int)
  {
    0 <= i < |g| && 0 <= j < |g[i]|
  }

  /** The grid has no cell, so numpy's `max()` raises ValueError. */
  predicate NoCells(g: Matrix)
  {
    |g| == 0 || |g[0]| == 0
  }

  function RowMax(row: seq<int>): (m: int)
    requires |row| > 0
    ensures exists j :: 0 <= j < |row| && row[j] == m
    ensures forall j :: 0 <= j < |row| ==> row[j] <= m
  {
    if |row| == 1 then row[0]
    else
      var m := RowMax(row[..|row| - 1]);
      assert forall j :: 0 <= j < |row| - 1 ==> row[..|row| - 1][j] == row[j];
      Raster.Max(m, row[|row| - 1])
  }

  /** The largest cell of a non-empty grid. */
  function GridMax(g: Matrix): (m: int)
    requires IsGrid(g) && !NoCells(g)
    ensures exists i, j :: InGrid(g, i, j) && g[i][j] == m
    ensures forall i, j :: InGrid(g, i, j) ==> g[i][j] <= m
  {
    if |g| == 1 then RowMax(g[0])
    else
      var m := GridMax(g[..|g| - 1]);
      var last := RowMax(g[|g| - 1]);
      assert forall i :: 0 <= i < |g| - 1 ==> g[..|g| - 1][i] == g[i];
      Raster.Max(m, last)
  }

  /** A cell survives when it reaches `max * p`. */
  predicate Survives(v: int, max: int, p: real)
  {
    v as real >= max as real * p
  }

  /** One row of the `np.where`: cells below the threshold become 0. */
  function FilterRow(row: seq<int>, max: int, p: real): (r: seq<int>)
    ensures |r| == |row|
    ensures forall j :: 0 <= j < |row| ==> r[j] == if Survives(row[j], max, p) then row[j] else 0
  {
    if |row| == 0 then []
    else FilterRow(row[..|row| - 1], max, p) + [if Survives(row[|row| - 1], max, p) then row[|row| - 1] else 0]
  }

  function FilterRows(g: Matrix, max: int, p: real): (r: Matrix)
    ensures |r| == |g|
    ensures forall i :: 0 <= i < |g| ==> r[i] == FilterRow(g[i], max, p)
  {
    if |g| == 0 then [] else FilterRows(g[..|g| - 1], max, p) + [FilterRow(g[|g| - 1], max, p)]
  }

  /**
   * `np.where(heatmap >= heatmap.max() * p, heatmap, 0)`: ValueError on a grid
   * without cells; otherwise the same shape, each cell kept when it reaches the
   * fraction `p` of the maximum and zeroed when it does not.
   */
  function FilterHeatmap(g: Matrix, p: real): (r: Result<Matrix>)
    requires IsGrid(g)
    ensures r.Err? <==> NoCells(g)
    ensures r.Err? ==> r.error == ValueError
    ensures r.Ok? ==> |r.value| == |g| && IsGrid(r.value)
    ensures r.Ok? ==> forall i :: 0 <= i < |g| ==> |r.value[i]| == |g[i]|
    ensures r.Ok? ==> forall i, j :: InGrid(g, i, j) ==>
      r.value[i][j] == if Survives(g[i][j], GridMax(g), p) then g[i][j] else 0
  {
    if NoCells(g) then Err(ValueError) else Ok(FilterRows(g, GridMax(g), p))
  }

  ghost predicate NonNegative(g: Matrix)
  {
    forall i, j :: InGrid(g, i, j) ==> g[i][j] >= 0
  }

  /** For 0 <= p <= 1 the filter keeps the maximum cell, so the maximum is unchanged. */
  lemma FilterKeepsMax(g: Matrix, p: real)
    requires IsGrid(g) && !NoCells(g) && NonNegative(g)
    requires 0.0 <= p <= 1.0
    ensures FilterHeatmap(g, p).Ok? && !NoCells(FilterHeatmap(g, p).value)
    ensures GridMax(FilterHeatmap(g, p).value) == GridMax(g)
  {
    var m := GridMax(g);
    var f := FilterHeatmap(g, p).value;
    var i, j :| InGrid(g, i, j) && g[i][j] == m;
    assert m as real * p <= m as real * 1.0 by {
      assert m as real >= 0.0;
    }
    assert f[i][j] == m;
    assert forall a, b :: InGrid(f, a, b) ==> InGrid(g, a, b) && f[a][b] <= g[a][b];
    var fm := GridMax(f);
    assert fm >= f[i][j];
    var a, b :| InGrid(f, a, b) && f[a][b] == fm;
  }

  /**
   * Filtering twice, the second time with a fraction no larger than the first, is
   * the same as filtering once: everything the first pass kept reaches the second
   * threshold.
   */
  lemma FilterIdempotent(g: Matrix, p1: real, p2: real)
    requires IsGrid(g) && !NoCells(g) && NonNegative(g)
    requires 0.0 <= p2 <= p1 <= 1.0
    ensures FilterHeatmap(FilterHeatmap(g, p1).value, p2) == FilterHeatmap(g, p1)
  {
    var m := GridMax(g);
    MaxNonNegative(g);
    FilterKeepsMax(g, p1);
    var f := FilterRows(g, m, p1);
    assert FilterHeatmap(g, p1) == Ok(f);
    assert FilterHeatmap(f, p2) == Ok(FilterRows(f, m, p2));
    FilterRowsTwice(g, m, p1, p2);
  }

  lemma FilterRowsTwice(g: Matrix, max: int, p1: real, p2: real)
    requires max >= 0 && p2 <= p1
    ensures FilterRows(FilterRows(g, max, p1), max, p2) == FilterRows(g, max, p1)
  {
    var f := FilterRows(g, max, p1);
    forall i | 0 <= i < |g| ensures FilterRow(f[i], max, p2) == f[i] {
      FilterRowTwice(g[i], max, p1, p2);
    }
  }

  lemma FilterRowTwice(row: seq<int>, max: int, p1: real, p2: real)
    requires max >= 0 && p2 <= p1
    ensures FilterRow(FilterRow(row, max, p1), max, p2) == FilterRow(row, max, p1)
  {
    var r := FilterRow(row, max, p1);
    forall j | 0 <= j < |row| ensures FilterRow(r, max, p2)[j] == r[j] {
      SurvivesMonotone(row[j], max, p2, p1);
    }
  }

  /** The maximum of a non-negative grid is non-negative. */
  lemma MaxNonNegative(g: Matrix)
    requires IsGrid(g) && !NoCells(g) && NonNegative(g)
    ensures GridMax(g) >= 0
  {
    var a, b :| InGrid(g, a, b) && g[a][b] == GridMax(g);
  }

  /** Raising the fraction raises the threshold of a non-negative maximum. */
  lemma ThresholdMonotone(max: int, p1: real, p2: real)
    requires max >= 0 && p1 <= p2
    ensures max as real * p1 <= max as real * p2
  {
    assert max as real * p2 - max as real * p1 == max as real * (p2 - p1);
  }

  lemma SurvivesMonotone(v: int, max: int, p1: real, p2: real)
    requires max >= 0 && p1 <= p2
    ensures Survives(v, max, p2) ==> Survives(v, max, p1)
  {
    ThresholdMonotone(max, p1, p2);
  }

  /** A larger fraction keeps no more cells: a cell kept at p2 is kept at any p1 <= p2. */
  lemma FilterMonotone(g: Matrix, p1: real, p2: real, i: int, j: int)
    requires IsGrid(g) && !NoCells(g) && NonNegative(g) && InGrid(g, i, j)
    requires p1 <= p2
    ensures FilterHeatmap(g, p2).value[i][j] != 0 ==> FilterHeatmap(g, p1).value[i][j] == g[i][j]
  {
    var m := GridMax(g);
    MaxNonNegative(g);
    var v := g[i][j];
    var o1 := FilterHeatmap(g, p1).value[i][j];
    var o2 := FilterHeatmap(g, p2).value[i][j];
    assert o1 == if Survives(v, m, p1) then v else 0;
    assert o2 == if Survives(v, m, p2) then v else 0;
    SurvivesMonotone(v, m, p1, p2);
  }


  /** On a non-negative grid the filter only lowers cells, each to itself or to 0. */
  lemma FilterLowers(g: Matrix, p: real, i: int, j: int)
    requires IsGrid(g) && !NoCells(g) && NonNegative(g) && InGrid(g, i, j)
    ensures var out := FilterHeatmap(g, p).value[i][j];
      0 <= out <= g[i][j] && (out == g[i][j] || out == 0)
  {
  }

  /** An all-zero grid comes out unchanged, whatever the fraction. */
  lemma FilterAllZero(g: Matrix, p: real)
    requires IsGrid(g) && !NoCells(g)
    requires forall i, j :: InGrid(g, i, j) ==> g[i][j] == 0
    ensures FilterHeatmap(g, p) == Ok(g)
  {
    var m := GridMax(g);
    assert FilterHeatmap(g, p) == Ok(FilterRows(g, m, p));
    forall i | 0 <= i < |g| ensures FilterRow(g[i], m, p) == g[i] {
      ZeroRowFixed(g[i], m, p);
    }
    assert FilterRows(g, m, p) == g;
  }

  lemma ZeroRowFixed(row: seq<int>, max: int, p: real)
    requires forall j :: 0 <= j < |row| ==> row[j] == 0
    ensures FilterRow(row, max, p) == row
  {
    assert forall j :: 0 <= j < |row| ==> FilterRow(row, max, p)[j] == row[j];
  }

  // ---------------------------------------------------------------- non-zero cells and clustering

  /** A cell position as `np.argwhere` reports it: (row, column). */
  datatype Cell = Cell(row: int, col: int)

  /** Row-major order, the order `np.argwhere` lists positions in. */
  predicate Before(a: Cell, b: Cell)
  {
    a.row < b.row || (a.row == b.row && a.col < b.col)
  }

  predicate StrictlySorted(cs: seq<Cell>)
  {
    forall a, b :: 0 <= a < b < |cs| ==> Before(cs[a], cs[b])
  }

  /** The positive cells of row `i`, left to right. */
  function RowCells(row: seq<int>, i: int): (r: seq<Cell>)
    ensures forall c :: c in r <==> c.row == i && 0 <= c.col < |row| && row[c.col] > 0
    ensures StrictlySorted(r)
  {
    if |row| == 0 then []
    else
      var init := RowCells(row[..|row| - 1], i);
      init + if row[|row| - 1] > 0 then [Cell(i, |row| - 1)] else []
  }

  /** `np.argwhere(g > 0)`: every positive cell, each once, in row-major order. */
  function NonZeroCoords(g: Matrix): (r: seq<Cell>)
    ensures forall c :: c in r <==> InGrid(g, c.row, c.col) && g[c.row][c.col] > 0
    ensures StrictlySorted(r)
  {
    if |g| == 0 then []
    else
      var init := NonZeroCoords(g[..|g| - 1]);
      var last := RowCells(g[|g| - 1], |g| - 1);
      assert forall c :: c in init ==> c.row < |g| - 1;
      init + last
  }

  /** Clustered positions and their labels, index by index. */
  datatype Clusters = Clusters(coords: seq<Cell>, labels: seq<int>)

  /** Some index `k` holds position `c` with label `l`. */
  predicate IsPair(coords: seq<Cell>, labels: seq<int>, c: Cell, l: int)
  {
    exists k :: 0 <= k < |coords| && k < |labels| && coords[k] == c && labels[k] == l
  }

  lemma PairSnoc(coords: seq<Cell>, labels: seq<int>, x: Cell, y: int, c: Cell, l: int)
    requires |coords| == |labels|
    ensures IsPair(coords + [x], labels + [y], c, l) <==> IsPair(coords, labels, c, l) || (c == x && l == y)
  {
    if IsPair(coords, labels, c, l) {
      var k :| 0 <= k < |coords| && coords[k] == c && labels[k] == l;
      assert (coords + [x])[k] == c && (labels + [y])[k] == l;
    }
    if c == x && l == y {
      assert (coords + [x])[|coords|] == c && (labels + [y])[|labels|] == l;
    }
    if IsPair(coords + [x], labels + [y], c, l) {
      var k :| 0 <= k < |coords + [x]| && (coords + [x])[k] == c && (labels + [y])[k] == l;
      if k < |coords| {
        assert coords[k] == c && labels[k] == l;
      }
    }
  }

  /** The boolean mask `labels != -1` applied to both arrays, keeping the original order. */
  function DropNoise(coords: seq<Cell>, labels: seq<int>): (r: Clusters)
    requires |coords| == |labels|
    ensures |r.coords| == |r.labels| <= |coords|
    ensures forall m :: 0 <= m < |r.labels| ==> r.labels[m] != -1
  {
    if |coords| == 0 then Clusters([], [])
    else
      var n := |coords| - 1;
      var init := DropNoise(coords[..n], labels[..n]);
      if labels[n] == -1 then init
      else Clusters(init.coords + [coords[n]], init.labels + [labels[n]])
  }

  /** Exactly the (position, label) pairs whose label is not -1 survive. */
  lemma {:induction false} DropNoisePairs(coords: seq<Cell>, labels: seq<int>, c: Cell, l: int)
    requires |coords| == |labels|
    ensures var r := DropNoise(coords, labels);
      IsPair(r.coords, r.labels, c, l) <==> IsPair(coords, labels, c, l) && l != -1
  {
    if |coords| > 0 {
      var n := |coords| - 1;
      DropNoisePairs(coords[..n], labels[..n], c, l);
      assert coords == coords[..n] + [coords[n]] && labels == labels[..n] + [labels[n]];
      PairSnoc(coords[..n], labels[..n], coords[n], labels[n], c, l);
      var init := DropNoise(coords[..n], labels[..n]);
      if labels[n] != -1 {
        PairSnoc(init.coords, init.labels, coords[n], labels[n], c, l);
      }
    }
  }

  /** Dropping the noise keeps row-major order. */
  lemma {:induction false} DropNoiseSorted(coords: seq<Cell>, labels: seq<int>)
    requires |coords| == |labels| && StrictlySorted(coords)
    ensures StrictlySorted(DropNoise(coords, labels).coords)
  {
    if |coords| > 0 {
      var n := |coords| - 1;
      assert StrictlySorted(coords[..n]);
      DropNoiseSorted(coords[..n], labels[..n]);
      var init := DropNoise(coords[..n], labels[..n]);
      forall m | 0 <= m < |init.coords| ensures Before(init.coords[m], coords[n]) {
        DropNoisePairs(coords[..n], labels[..n], init.coords[m], init.labels[m]);
        assert IsPair(init.coords, init.labels, init.coords[m], init.labels[m]);
        var k :| 0 <= k < n && coords[..n][k] == init.coords[m] && labels[..n][k] == init.labels[m];
        assert coords[k] == init.coords[m];
      }
    }
  }

  /**
   * `apply_dbscan`: the positive cells, labelled by `dbscan` (one label per point,
   * -1 for noise), with the noise removed. Without a positive cell the clustering
   * is not run and both results are empty.
   */
  function ApplyDbscan(g: Matrix, dbscan: seq<Cell> -> seq<int>): (r: Clusters)
    requires forall cs :: |dbscan(cs)| == |cs|
    ensures NonZeroCoords(g) == [] ==> r == Clusters([], [])
    ensures |r.coords| == |r.labels| <= |NonZeroCoords(g)|
    ensures forall m :: 0 <= m < |r.labels| ==> r.labels[m] != -1
  {
    var pts := NonZeroCoords(g);
    if |pts| == 0 then Clusters([], []) else DropNoise(pts, dbscan(pts))
  }

  /**
   * The clustered positions are positive cells in row-major order, and a
   * (position, label) pair is kept exactly when the clustering gave that positive
   * cell that label and the label is not noise.
   */
  lemma ApplyDbscanClusters(g: Matrix, dbscan: seq<Cell> -> seq<int>)
    requires forall cs :: |dbscan(cs)| == |cs|
    ensures var r := ApplyDbscan(g, dbscan);
      && StrictlySorted(r.coords)
      && (forall m :: 0 <= m < |r.coords| ==>
            InGrid(g, r.coords[m].row, r.coords[m].col) && g[r.coords[m].row][r.coords[m].col] > 0)
      && (forall c, l :: IsPair(r.coords, r.labels, c, l) <==>
            IsPair(NonZeroCoords(g), dbscan(NonZeroCoords(g)), c, l) && l != -1)
  {
    var pts := NonZeroCoords(g);
    var r := ApplyDbscan(g, dbscan);
    if |pts| > 0 {
      DropNoiseSorted(pts, dbscan(pts));
      forall c, l ensures IsPair(r.coords, r.labels, c, l) <==> IsPair(pts, dbscan(pts), c, l) && l != -1 {
        DropNoisePairs(pts, dbscan(pts), c, l);
      }
      forall m | 0 <= m < |r.coords| ensures r.coords[m] in pts {
        assert IsPair(r.coords, r.labels, r.coords[m], r.labels[m]);
        var k :| 0 <= k < |pts| && k < |dbscan(pts)| && pts[k] == r.coords[m] && dbscan(pts)[k] == r.labels[m];
      }
    }
  }

  // ---------------------------------------------------------------- weighted centres

  predicate Member(labels: seq<int>, id: int)
  {
    exists k :: 0 <= k < |labels| && labels[k] == id
  }

  /** Every position lies in the grid on a positive cell. */
  predicate OnPositiveCells(g: Matrix, coords: seq<Cell>)
  {
    forall k :: 0 <= k < |coords| ==> InGrid(g, coords[k].row, coords[k].col) && g[coords[k].row][coords[k].col] > 0
  }

  /** Total weight and the column- and row-weighted sums of one cluster. */
  datatype Moments = Moments(weight: int, colSum: int, rowSum: int)

  function ClusterMoments(g: Matrix, coords: seq<Cell>, labels: seq<int>, id: int): (m: Moments)
    requires |coords| == |labels| && OnPositiveCells(g, coords)
    ensures m.weight >= 0 && (m.weight > 0 <==> Member(labels, id))
  {
    if |coords| == 0 then Moments(0, 0, 0)
    else
      var n := |coords| - 1;
      assert OnPositiveCells(g, coords[..n]) by {
        forall k | 0 <= k < n ensures coords[..n][k] == coords[k] {}
      }
      var m := ClusterMoments(g, coords[..n], labels[..n], id);
      assert Member(labels[..n], id) ==> Member(labels, id) by {
        if Member(labels[..n], id) {
          var k :| 0 <= k < n && labels[..n][k] == id;
          assert labels[k] == id;
        }
      }
      assert Member(labels, id) && labels[n] != id ==> Member(labels[..n], id) by {
        if Member(labels, id) && labels[n] != id {
          var k :| 0 <= k < |labels| && labels[k] == id;
          assert labels[..n][k] == id;
        }
      }
      if labels[n] == id then
        var c := coords[n];
        var v := g[c.row][c.col];
        Moments(m.weight + v, m.colSum + c.col * v, m.rowSum + c.row * v)
      else m
  }

  /**
   * The centre of one cluster: `int(sum(col * v) / sum(v))` for x and the same
   * over rows for y. The sums are non-negative, so truncation is floor division.
   */
  function Centroid(g: Matrix, coords: seq<Cell>, labels: seq<int>, id: int): Point
    requires |coords| == |labels| && OnPositiveCells(g, coords) && Member(labels, id)
  {
    var m := ClusterMoments(g, coords, labels, id);
    Point(m.colSum / m.weight, m.rowSum / m.weight)
  }

  /** All members of the cluster lie in rows [rLo, rHi] and columns [cLo, cHi]. */
  predicate MembersWithin(coords: seq<Cell>, labels: seq<int>, id: int, rLo: int, rHi: int, cLo: int, cHi: int)
    requires |coords| == |labels|
  {
    forall k :: 0 <= k < |coords| && labels[k] == id ==>
      rLo <= coords[k].row <= rHi && cLo <= coords[k].col <= cHi
  }

  lemma {:induction false} MomentsBounds(g: Matrix, coords: seq<Cell>, labels: seq<int>, id: int,
                                         rLo: int, rHi: int, cLo: int, cHi: int)
    requires |coords| == |labels| && OnPositiveCells(g, coords)
    requires MembersWithin(coords, labels, id, rLo, rHi, cLo, cHi)
    ensures var m := ClusterMoments(g, coords, labels, id);
      m.weight * cLo <= m.colSum <= m.weight * cHi && m.weight * rLo <= m.rowSum <= m.weight * rHi
  {
    if |coords| > 0 {
      var n := |coords| - 1;
      assert OnPositiveCells(g, coords[..n]) by {
        forall k | 0 <= k < n ensures coords[..n][k] == coords[k] {}
      }
      assert MembersWithin(coords[..n], labels[..n], id, rLo, rHi, cLo, cHi) by {
        forall k | 0 <= k < n ensures coords[..n][k] == coords[k] && labels[..n][k] == labels[k] {}
      }
      MomentsBounds(g, coords[..n], labels[..n], id, rLo, rHi, cLo, cHi);
      if labels[n] == id {
        var c := coords[n];
        var v := g[c.row][c.col];
        var m := ClusterMoments(g, coords[..n], labels[..n], id);
        WeightedStep(m.weight, m.colSum, v, c.col, cLo, cHi);
        WeightedStep(m.weight, m.rowSum, v, c.row, rLo, rHi);
      }
    }
  }

  lemma MulBetween(v: int, x: int, lo: int, hi: int)
    requires v >= 0 && lo <= x <= hi
    ensures v * lo <= v * x <= v * hi
  {
    assert v * x - v * lo == v * (x - lo);
    assert v * hi - v * x == v * (hi - x);
  }

  /** Adding one more weighted coordinate inside [lo, hi] keeps the weighted sum in bounds. */
  lemma WeightedStep(w: int, sum: int, v: int, x: int, lo: int, hi: int)
    requires v >= 0 && lo <= x <= hi && w * lo <= sum <= w * hi
    ensures (w + v) * lo <= sum + x * v <= (w + v) * hi
  {
    MulBetween(v, x, lo, hi);
    assert x * v == v * x;
    assert (w + v) * lo == w * lo + v * lo;
    assert (w + v) * hi == w * hi + v * hi;
  }

  lemma DivBetween(s: int, w: int, lo: int, hi: int)
    requires w > 0 && w * lo <= s <= w * hi
    ensures lo <= s / w <= hi
  {
    var q := s / w;
    assert s == w * q + s % w && 0 <= s % w < w;
    assert w * (q + 1) == w * q + w;
    MulCancel(w, lo, q + 1, true);
    MulCancel(w, q, hi, false);
  }

  /** Cancelling a positive factor from a comparison. */
  lemma MulCancel(w: int, a: int, b: int, strict: bool)
    requires w > 0
    requires strict ==> w * a < w * b
    requires !strict ==> w * a <= w * b
    ensures strict ==> a < b
    ensures !strict ==> a <= b
  {
    assert w * b - w * a == w * (b - a);
  }

  /** The weighted centre of a cluster lies within the bounding box of its members. */
  lemma CentroidWithinBounds(g: Matrix, coords: seq<Cell>, labels: seq<int>, id: int,
                             rLo: int, rHi: int, cLo: int, cHi: int)
    requires |coords| == |labels| && OnPositiveCells(g, coords) && Member(labels, id)
    requires MembersWithin(coords, labels, id, rLo, rHi, cLo, cHi)
    ensures var c := Centroid(g, coords, labels, id);
      cLo <= c.x <= cHi && rLo <= c.y <= rHi
  {
    var m := ClusterMoments(g, coords, labels, id);
    MomentsBounds(g, coords, labels, id, rLo, rHi, cLo, cHi);
    DivBetween(m.colSum, m.weight, cLo, cHi);
    DivBetween(m.rowSum, m.weight, rLo, rHi);
  }

  /** A cluster whose members all sit on one cell has that cell, as (column, row), for centre. */
  lemma CentroidOfOneCell(g: Matrix, coords: seq<Cell>, labels: seq<int>, id: int, c: Cell)
    requires |coords| == |labels| && OnPositiveCells(g, coords) && Member(labels, id)
    requires forall k :: 0 <= k < |coords| && labels[k] == id ==> coords[k] == c
    ensures Centroid(g, coords, labels, id) == Point(c.col, c.row)
  {
    CentroidWithinBounds(g, coords, labels, id, c.row, c.row, c.col, c.col);
  }

  /** Not the noise label. */
  predicate IsCluster(id: int) { id != -1 }

  /**
   * `calculate_cluster_centers`. The loop runs over `set(labels)`, whose iteration
   * order is CPython's and is taken here as the input `order`: every label once.
   * The result holds one centre per label of that order other than -1, each the
   * weighted centre of that label's positions.
   */
  method CalculateClusterCenters(g: Matrix, coords: seq<Cell>, labels: seq<int>, order: seq<int>)
    returns (centers: seq<Point>)
    requires |coords| == |labels| && OnPositiveCells(g, coords)
    requires forall id :: id in order <==> Member(labels, id)
    requires forall a, b :: 0 <= a < b < |order| ==> order[a] != order[b]
    ensures |centers| == |Filter(order, IsCluster)|
    ensures forall k :: 0 <= k < |centers| ==>
      centers[k] == Centroid(g, coords, labels, Filter(order, IsCluster)[k])
    ensures forall k :: 0 <= k < |labels| && labels[k] != -1 ==>
      exists m :: 0 <= m < |centers| && centers[m] == Centroid(g, coords, labels, labels[k])
  {
    centers := CentresOf(g, coords, labels, order);
    EveryClusterHasCentre(g, coords, labels, order, centers);
  }

  /** The loop of `calculate_cluster_centers`: one centre per listed label other than -1. */
  method CentresOf(g: Matrix, coords: seq<Cell>, labels: seq<int>, ids: seq<int>)
    returns (centers: seq<Point>)
    requires |coords| == |labels| && OnPositiveCells(g, coords)
    requires forall id :: id in ids ==> Member(labels, id)
    ensures |centers| == |Filter(ids, IsCluster)|
    ensures forall k :: 0 <= k < |centers| ==>
      centers[k] == Centroid(g, coords, labels, Filter(ids, IsCluster)[k])
  {
    centers := [];
    ghost var kept: seq<int> := [];
    for i := 0 to |ids|
      invariant kept == Filter(ids[..i], IsCluster)
      invariant CentresOfLabels(g, coords, labels, kept, centers)
    {
      var id := ids[i];
      if id != -1 {
        assert id in ids;
        var c := Centroid(g, coords, labels, id);
        CentresSnoc(g, coords, labels, kept, centers, id);
        centers := centers + [c];
        kept := kept + [id];
      }
      FilterPrefix(ids, i, IsCluster);
    }
    assert ids[..|ids|] == ids;
  }

  /** centers[k] is the centre of the cluster kept[k], for every k. */
  predicate CentresOfLabels(g: Matrix, coords: seq<Cell>, labels: seq<int>, kept: seq<int>, centers: seq<Point>)
    requires |coords| == |labels| && OnPositiveCells(g, coords)
  {
    && |centers| == |kept|
    && forall k :: 0 <= k < |kept| ==>
         Member(labels, kept[k]) && centers[k] == Centroid(g, coords, labels, kept[k])
  }

  /** Appending a cluster and its centre keeps the correspondence. */
  lemma CentresSnoc(g: Matrix, coords: seq<Cell>, labels: seq<int>, kept: seq<int>, centers: seq<Point>, id: int)
    requires |coords| == |labels| && OnPositiveCells(g, coords) && Member(labels, id)
    requires CentresOfLabels(g, coords, labels, kept, centers)
    ensures CentresOfLabels(g, coords, labels, kept + [id], centers + [Centroid(g, coords, labels, id)])
  {
  }

  /** Centres listed in the order of the non-noise labels name every labelled cluster. */
  lemma EveryClusterHasCentre(g: Matrix, coords: seq<Cell>, labels: seq<int>, order: seq<int>, centers: seq<Point>)
    requires |coords| == |labels| && OnPositiveCells(g, coords)
    requires forall id :: id in order <==> Member(labels, id)
    requires |centers| == |Filter(order, IsCluster)|
    requires forall k :: 0 <= k < |centers| ==>
      centers[k] == Centroid(g, coords, labels, Filter(order, IsCluster)[k])
    ensures forall k :: 0 <= k < |labels| && labels[k] != -1 ==>
      exists m :: 0 <= m < |centers| && centers[m] == Centroid(g, coords, labels, labels[k])
  {
    var kept := Filter(order, IsCluster);
    forall k | 0 <= k < |labels| && labels[k] != -1
      ensures exists m :: 0 <= m < |centers| && centers[m] == Centroid(g, coords, labels, labels[k])
    {
      assert Member(labels, labels[k]);
      assert labels[k] in kept;
      var m :| 0 <= m < |kept| && kept[m] == labels[k];
      assert centers[m] == Centroid(g, coords, labels, labels[k]);
    }
  }
}
