/**
 * The ground-truth heatmap built from hand-placed points: for every GeoTIFF of a
 * zoom level that has a shapefile of the same stem, each point marks a small
 * square window, and every level adds 0 or 1 to each cell.
 */
module ShapefileHeatmap {
  import opened Base
  import opened Text
  import opened Raster
  import TreeIdentification

  // ---------------------------------------------------------------- one level of points

  /** The windows the points of one level mark, `s` being `point_size`. */
  function PointRects(points: seq<Point>, s: int, height: nat, width: nat): seq<Rect>
  {
    seq(|points|, k requires 0 <= k < |points| => PointWindow(points[k], s, height, width))
  }

  /** The cell lies within `s//2` of the point on both axes. */
  predicate Near(p: Point, s: int, i: int, j: int)
  {
    p.y - s / 2 <= i <= p.y + s / 2 && p.x - s / 2 <= j <= p.x + s / 2
  }

  /**
   * `accumulate_points_with_unique_count`: the windows of all points are marked
   * as 1 in a fresh zero grid, which is then added to `grid` in place.
   */
  method AccumulatePointsWithUniqueCount(points: seq<Point>, grid: array2<int>, pointSize: int)
    modifies grid
    ensures forall i, j :: 0 <= i < grid.Length0 && 0 <= j < grid.Length1 ==>
      grid[i, j] == old(grid[i, j]) + Mask(PointRects(points, pointSize, grid.Length0, grid.Length1), i, j)
  {
    AccumulateLevel(grid, PointRects(points, pointSize, grid.Length0, grid.Length1));
  }

  /**
   * One call raises a grid cell by 1 exactly when some point lies within `s//2`
   * of it on both axes, however many points do; every other cell keeps its value.
   */
  lemma PointMaskCells(points: seq<Point>, s: int, height: nat, width: nat, i: int, j: int)
    requires 0 <= i < height && 0 <= j < width
    ensures Mask(PointRects(points, s, height, width), i, j) ==
      if exists k :: 0 <= k < |points| && Near(points[k], s, i, j) then 1 else 0
  {
    var rects := PointRects(points, s, height, width);
    if exists k :: 0 <= k < |points| && Near(points[k], s, i, j) {
      var k :| 0 <= k < |points| && Near(points[k], s, i, j);
      PointWindowCells(points[k], s, height, width, i, j);
      assert Covers(rects[k], i, j);
    } else if Marked(rects, i, j) {
      var k :| 0 <= k < |rects| && Covers(rects[k], i, j);
      PointWindowCells(points[k], s, height, width, i, j);
      assert false;
    }
  }

  /** The same point twice in one level counts once. */
  lemma DuplicatePointCountsOnce(p: Point, s: int, height: nat, width: nat, i: int, j: int)
    requires 0 <= i < height && 0 <= j < width
    ensures Mask(PointRects([p, p], s, height, width), i, j) == Mask(PointRects([p], s, height, width), i, j)
  {
    PointMaskCells([p, p], s, height, width, i, j);
    PointMaskCells([p], s, height, width, i, j);
    if Near(p, s, i, j) {
      assert [p, p][0] == p && [p][0] == p;
    }
  }

  // ---------------------------------------------------------------- file selection

  /** The name ends in .tif or .tiff, in any letter case. */
  predicate IsTiffName(name: string)
  {
    var lower := Lower(name);
    EndsWith(lower, ".tif") || EndsWith(lower, ".tiff")
  }

  /**
   * The index of the first TIFF of the listing at or after `from`, the one whose
   * raster fixes the heatmap's shape; None when there is none.
   */
  function FirstTiff(listing: seq<string>, from: nat): (r: Option<nat>)
    requires from <= |listing|
    ensures r.None? <==> forall k :: from <= k < |listing| ==> !IsTiffName(listing[k])
    ensures r.Some? ==>
      && from <= r.value < |listing| && IsTiffName(listing[r.value])
      && forall k :: from <= k < r.value ==> !IsTiffName(listing[k])
    decreases |listing| - from
  {
    if from == |listing| then None
    else if IsTiffName(listing[from]) then Some(from)
    else FirstTiff(listing, from + 1)
  }

  /** The shapefile a TIFF is paired with: its stem with `.shp` appended. */
  function ShapefileName(tiff: string): string
  {
    Stem(tiff) + ".shp"
  }

  /** A TIFF whose shapefile exists. */
  function Paired(hasShapefile: string -> bool): string -> bool
  {
    f => IsTiffName(f) && hasShapefile(ShapefileName(f))
  }

  /**
   * The TIFF files of the listing that have a shapefile of the same stem, in
   * listing order, filtered by the level of their stem when a bound is given.
   * `hasShapefile` stands for the existence test in the shapefile directory.
   */
  function SelectTiffFiles(listing: seq<string>, hasShapefile: string -> bool,
                           minLevel: Option<int>, maxLevel: Option<int>): (r: Result<seq<string>>)
    ensures minLevel.None? && maxLevel.None? ==>
      r == Ok(Filter(listing, Paired(hasShapefile)))
    ensures r.Ok? ==> forall x :: x in r.value ==> x in listing && IsTiffName(x) && hasShapefile(ShapefileName(x))
  {
    var paired := Filter(listing, Paired(hasShapefile));
    if minLevel.Some? || maxLevel.Some? then TreeIdentification.LevelComprehension(paired, Stem, minLevel, maxLevel)
    else Ok(paired)
  }

  /**
   * With both bounds the selection succeeds exactly when every paired TIFF's stem
   * carries an integer level, and keeps the paired TIFFs whose stem's level lies
   * in [lo, hi], inclusive on both ends.
   */
  lemma SelectBothBounds(listing: seq<string>, hasShapefile: string -> bool, lo: int, hi: int)
    ensures var paired := Filter(listing, Paired(hasShapefile));
      var r := SelectTiffFiles(listing, hasShapefile, Some(lo), Some(hi));
      && (r.Ok? <==> TreeIdentification.AllLevelled(paired, Stem))
      && (r.Ok? ==> r.value == Filter(paired, TreeIdentification.InRangeBy(Stem, lo, hi)))
  {
    var paired := Filter(listing, Paired(hasShapefile));
    TreeIdentification.ComprehensionBothBounds(paired, Stem, lo, hi);
  }

  /** "P9_120.tif" is read as level 120. */
  lemma StemLevelExample()
    ensures IsTiffName("P9_120.tif")
    ensures TreeIdentification.LevelOf(Stem("P9_120.tif")) == Ok(120)
  {
    assert Lower("P9_120.tif")[6..] == ".tif";
    StemOfExtension("P9_120", "tif");
    assert "P9_120" + "." + "tif" == "P9_120.tif";
    SplitExample();
    ParseExample();
  }

  lemma SplitExample()
    ensures Split("P9_120", '_') == ["P9", "120"]
  {
    assert "P9_120" == "P9" + ['_'] + "120";
    SplitConcat("P9", "120", '_');
    SplitNoSep("P9", '_');
    SplitNoSep("120", '_');
  }

  lemma ParseExample()
    ensures ParseInt("120") == Some(120)
  {
    assert "120"[..2] == "12" && "12"[..1] == "1";
    assert DigitsValue("120") == 120;
  }

  // ---------------------------------------------------------------- the heatmap

  /** The windows of every selected level, `load` standing for reading the level's points. */
  function PointLevels(files: seq<string>, load: string -> seq<Point>, s: int, height: nat, width: nat)
    : seq<seq<Rect>>
  {
    seq(|files|, k requires 0 <= k < |files| => PointRects(load(files[k]), s, height, width))
  }

  /** One more selected level adds its own mask to every cell's count. */
  lemma PointLevelsStep(files: seq<string>, k: nat, load: string -> seq<Point>, s: int, height: nat, width: nat)
    requires k < |files|
    ensures forall i, j ::
      Coverage(PointLevels(files[..k + 1], load, s, height, width), i, j) ==
        Coverage(PointLevels(files[..k], load, s, height, width), i, j)
        + Mask(PointRects(load(files[k]), s, height, width), i, j)
  {
    var levels := PointLevels(files[..k + 1], load, s, height, width);
    assert levels[..k] == PointLevels(files[..k], load, s, height, width);
  }

  /**
   * `build_heatmap_from_shapefiles`. ValueError when the listing holds no TIFF;
   * otherwise the grid has the first TIFF's `(height, width)` (`shape` stands for
   * reading the raster), the selection's error is raised, and each cell counts
   * the selected levels with a point near it, so it lies in [0, levels].
   */
  method BuildHeatmapFromShapefiles(listing: seq<string>, hasShapefile: string -> bool,
                                    shape: string -> (nat, nat), load: string -> seq<Point>,
                                    minLevel: Option<int>, maxLevel: Option<int>, pointSize: int)
    returns (r: Result<array2<int>>)
    ensures FirstTiff(listing, 0).None? ==> r == Err(ValueError)
    ensures FirstTiff(listing, 0).Some? ==>
      (r.Err? <==> SelectTiffFiles(listing, hasShapefile, minLevel, maxLevel).Err?)
    ensures r.Ok? ==>
      && FirstTiff(listing, 0).Some?
      && var (height, width) := shape(listing[FirstTiff(listing, 0).value]);
      var files := SelectTiffFiles(listing, hasShapefile, minLevel, maxLevel).value;
      && fresh(r.value) && r.value.Length0 == height && r.value.Length1 == width
      && forall i, j :: 0 <= i < height && 0 <= j < width ==>
           r.value[i, j] == Coverage(PointLevels(files, load, pointSize, height, width), i, j)
           && 0 <= r.value[i, j] <= |files|
  {
    var sample := FirstTiff(listing, 0);
    if sample.None? {
      return Err(ValueError);
    }
    var (height, width) := shape(listing[sample.value]);
    var heatmap := new int[height, width]((i, j) => 0);
    var files :- SelectTiffFiles(listing, hasShapefile, minLevel, maxLevel);
    AccumulateLevels(heatmap, files, load, pointSize);
    forall i, j | 0 <= i < height && 0 <= j < width
      ensures 0 <= Coverage(PointLevels(files, load, pointSize, height, width), i, j) <= |files|
    {
      CoverageBounds(PointLevels(files, load, pointSize, height, width), i, j);
    }
    return Ok(heatmap);
  }

  /** The loop over the selected levels, each accumulated into the zeroed heatmap in turn. */
  method AccumulateLevels(heatmap: array2<int>, files: seq<string>, load: string -> seq<Point>, pointSize: int)
    requires forall i, j :: 0 <= i < heatmap.Length0 && 0 <= j < heatmap.Length1 ==> heatmap[i, j] == 0
    modifies heatmap
    ensures forall i, j :: 0 <= i < heatmap.Length0 && 0 <= j < heatmap.Length1 ==>
      heatmap[i, j] == Coverage(PointLevels(files, load, pointSize, heatmap.Length0, heatmap.Length1), i, j)
  {
    var height, width := heatmap.Length0, heatmap.Length1;
    for k := 0 to |files|
      invariant forall i, j :: 0 <= i < height && 0 <= j < width ==>
        heatmap[i, j] == Coverage(PointLevels(files[..k], load, pointSize, height, width), i, j)
    {
      PointLevelsStep(files, k, load, pointSize, height, width);
      AccumulatePointsWithUniqueCount(load(files[k]), heatmap, pointSize);
    }
    assert files[..|files|] == files;
  }
}
