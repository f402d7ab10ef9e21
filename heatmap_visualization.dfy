/**
 * The detection-coverage heatmap drawn for inspection: like the tree detector's
 * heatmap, but its level filter skips files whose level token is not an integer,
 * treats a missing bound as unbounded, and the picture's file name records the
 * bounds.
 */
module HeatmapVisualization {
  import opened Base
  import opened Text
  import opened Raster
  import TreeIdentification

  // ---------------------------------------------------------------- the tolerant level filter

  /** `(min is None or level >= min) and (max is None or level <= max)`. */
  predicate WithinBounds(level: int, minLevel: Option<int>, maxLevel: Option<int>)
  {
    (minLevel.None? || level >= minLevel.value) && (maxLevel.None? || level <= maxLevel.value)
  }

  /** The file carries an integer level within the bounds. */
  function KeptTolerantly(minLevel: Option<int>, maxLevel: Option<int>): string -> bool
  {
    name => TreeIdentification.LevelOf(name).Ok? && WithinBounds(TreeIdentification.LevelOf(name).value, minLevel, maxLevel)
  }

  /**
   * The filter loop of `create_coverage_grid`. `int(parts[1])` runs inside a `try`
   * that only catches ValueError: a name whose second `_`-token is not an integer
   * is skipped, but a name without `_` raises IndexError, which ends the loop.
   */
  method FilterByLevel(names: seq<string>, minLevel: Option<int>, maxLevel: Option<int>)
    returns (r: Result<seq<string>>)
    ensures r.Err? <==> exists k :: 0 <= k < |names| && '_' !in names[k]
    ensures r.Err? ==> r.error == IndexError
    ensures r.Ok? ==> r.value == Filter(names, KeptTolerantly(minLevel, maxLevel))
  {
    var keep := KeptTolerantly(minLevel, maxLevel);
    var filtered: seq<string> := [];
    var i := 0;
    while i < |names|
      invariant 0 <= i <= |names|
      invariant AllUnderscored(names, i)
      invariant filtered == Filter(names[..i], keep)
    {
      var name := names[i];
      FilterByLevelStep(names, i, minLevel, maxLevel);
      var level := TreeIdentification.LevelOf(name);
      if level.Err? && level.error == IndexError {
        assert !HasUnderscore(names[i]);
        return Err(IndexError);
      }
      assert HasUnderscore(name);
      if level.Ok? && WithinBounds(level.value, minLevel, maxLevel) {
        filtered := filtered + [name];
      }
      UnderscoresSnoc(names, i);
      i := i + 1;
    }
    assert names[..i] == names;
    assert forall k :: 0 <= k < |names| ==> '_' in names[k] by {
      forall k | 0 <= k < |names| ensures '_' in names[k] {
        assert HasUnderscore(names[k]);
      }
    }
    return Ok(filtered);
  }

  /** The first n names all have an underscore. */
  predicate AllUnderscored(names: seq<string>, n: nat)
    requires n <= |names|
  {
    forall k :: 0 <= k < n ==> HasUnderscore(names[k])
  }

  lemma UnderscoresSnoc(names: seq<string>, i: nat)
    requires i < |names| && AllUnderscored(names, i) && HasUnderscore(names[i])
    ensures AllUnderscored(names, i + 1)
  {
  }

  /** The name has a second `_`-token to parse. */
  predicate HasUnderscore(name: string)
  {
    '_' in name
  }

  lemma FilterByLevelStep(names: seq<string>, i: nat, minLevel: Option<int>, maxLevel: Option<int>)
    requires i < |names|
    ensures var level := TreeIdentification.LevelOf(names[i]);
      Filter(names[..i + 1], KeptTolerantly(minLevel, maxLevel)) ==
        Filter(names[..i], KeptTolerantly(minLevel, maxLevel))
        + if level.Ok? && WithinBounds(level.value, minLevel, maxLevel) then [names[i]] else []
  {
    assert names[..i + 1] == names[..i] + [names[i]];
    FilterSnoc(names[..i], names[i], KeptTolerantly(minLevel, maxLevel));
  }

  /** For [5, 10], "a_7_b.json" is kept. */
  lemma KeptExample()
    ensures KeptTolerantly(Some(5), Some(10))("a_7_b.json")
  {
    assert TreeIdentification.LevelOf("a_7_b.json") == Ok(7) by {
      assert "a_7_b.json" == "a" + ['_'] + "7" + ['_'] + "b.json";
      TreeIdentification.LevelOfTokens("a", "7", "b.json");
      assert ParseInt("7") == Some(7) by {
        assert AllDigits("7") && "7"[..0] == [];
        assert DigitsValue("7") == 7;
      }
    }
    assert WithinBounds(7, Some(5), Some(10));
  }

  /** "a_x_b.json" is skipped: its level token raises ValueError, which the filter catches. */
  lemma SkipExample()
    ensures TreeIdentification.LevelOf("a_x_b.json") == Err(ValueError)
    ensures !KeptTolerantly(Some(5), Some(10))("a_x_b.json")
  {
    assert TreeIdentification.LevelOf("a_x_b.json") == Err(ValueError) by {
      assert "a_x_b.json" == "a" + ['_'] + "x" + ['_'] + "b.json";
      TreeIdentification.LevelOfTokens("a", "x", "b.json");
      ParseIntNeedsDigit("x");
    }
  }

  // ---------------------------------------------------------------- the coverage grid

  /** The JSON files `create_coverage_grid` paints: filtered only when a bound is given. */
  function SelectedFiles(listing: seq<string>, minLevel: Option<int>, maxLevel: Option<int>): seq<string>
  {
    var jsons := Filter(listing, TreeIdentification.IsJsonName);
    if minLevel.Some? || maxLevel.Some? then Filter(jsons, KeptTolerantly(minLevel, maxLevel)) else jsons
  }

  /**
   * The file selection of `create_coverage_grid`: the JSON files of the listing,
   * level-filtered when a bound is given, which raises IndexError only when some
   * JSON name holds no `_`.
   */
  method SelectCoverageFiles(listing: seq<string>, minLevel: Option<int>, maxLevel: Option<int>)
    returns (r: Result<seq<string>>)
    ensures r.Err? <==>
      && (minLevel.Some? || maxLevel.Some?)
      && exists k :: 0 <= k < |Filter(listing, TreeIdentification.IsJsonName)| &&
           '_' !in Filter(listing, TreeIdentification.IsJsonName)[k]
    ensures r.Err? ==> r.error == IndexError
    ensures r.Ok? ==> r.value == SelectedFiles(listing, minLevel, maxLevel)
  {
    var files := Filter(listing, TreeIdentification.IsJsonName);
    if minLevel.Some? || maxLevel.Some? {
      r := FilterByLevel(files, minLevel, maxLevel);
      assert files == Filter(listing, TreeIdentification.IsJsonName);
    } else {
      r := Ok(files);
    }
  }

  /**
   * `create_coverage_grid`: a grid of the given shape where each cell counts the
   * selected levels with a box painting it, so it lies in [0, levels]. The
   * selection's IndexError is raised.
   */
  method CreateCoverageGrid(height: nat, width: nat, listing: seq<string>, load: string -> seq<Box>,
                            minLevel: Option<int>, maxLevel: Option<int>)
    returns (r: Result<array2<int>>)
    ensures r.Err? <==>
      && (minLevel.Some? || maxLevel.Some?)
      && exists k :: 0 <= k < |Filter(listing, TreeIdentification.IsJsonName)| &&
           '_' !in Filter(listing, TreeIdentification.IsJsonName)[k]
    ensures r.Err? ==> r.error == IndexError
    ensures r.Ok? ==>
      var files := SelectedFiles(listing, minLevel, maxLevel);
      && fresh(r.value) && r.value.Length0 == height && r.value.Length1 == width
      && forall i, j :: 0 <= i < height && 0 <= j < width ==>
           r.value[i, j] == Coverage(TreeIdentification.BoxLevels(files, load, height, width), i, j)
           && 0 <= r.value[i, j] <= |files|
  {
    var grid := new int[height, width]((i, j) => 0);
    var files :- SelectCoverageFiles(listing, minLevel, maxLevel);
    var k := 0;
    while k < |files|
      invariant 0 <= k <= |files|
      invariant forall i, j :: 0 <= i < height && 0 <= j < width ==>
        grid[i, j] == Coverage(TreeIdentification.BoxLevels(files[..k], load, height, width), i, j)
    {
      TreeIdentification.BoxLevelsStep(files, k, load, height, width);
      AccumulateLevel(grid, TreeIdentification.LevelRects(load(files[k]), height, width));
      k := k + 1;
    }
    assert files[..k] == files;
    forall i, j | 0 <= i < height && 0 <= j < width
      ensures 0 <= Coverage(TreeIdentification.BoxLevels(files, load, height, width), i, j) <= |files|
    {
      CoverageBounds(TreeIdentification.BoxLevels(files, load, height, width), i, j);
    }
    return Ok(grid);
  }

  // ---------------------------------------------------------------- the output name

  /** `bound or word`: a falsy bound (None or 0) prints as the word. */
  function BoundText(bound: Option<int>, word: string): string
  {
    if bound.None? || bound.value == 0 then word else IntToString(bound.value)
  }

  /** The file name of the saved heatmap, `detections_heatmap{level_info}.png`. */
  function HeatmapFileName(minLevel: Option<int>, maxLevel: Option<int>): string
  {
    var levelInfo :=
      if minLevel.Some? || maxLevel.Some? then
        "_minlevel_" + BoundText(minLevel, "min") + "_maxlevel_" + BoundText(maxLevel, "max")
      else "";
    "detections_heatmap" + levelInfo + ".png"
  }

  /** The plain name is used exactly when no bound is given. */
  lemma PlainNameIffUnbounded(minLevel: Option<int>, maxLevel: Option<int>)
    ensures HeatmapFileName(minLevel, maxLevel) == "detections_heatmap.png" <==> minLevel.None? && maxLevel.None?
  {
    if minLevel.Some? || maxLevel.Some? {
      assert |HeatmapFileName(minLevel, maxLevel)| > |"detections_heatmap.png"|;
    }
  }

  /** A bound of 0 is falsy and prints as 'min', just like a missing one. */
  lemma ZeroBoundPrintsWord(maxLevel: Option<int>)
    requires maxLevel.Some?
    ensures HeatmapFileName(Some(0), maxLevel) == HeatmapFileName(None, maxLevel)
  {
  }

  /**
   * For non-zero bounds the name can be read back: split on `_` it has six pieces,
   * the fourth parses to the lower bound and the sixth is the upper bound followed
   * by ".png".
   */
  lemma HeatmapFileNameBounds(a: int, b: int)
    requires a != 0 && b != 0
    ensures var parts := Split(HeatmapFileName(Some(a), Some(b)), '_');
      && |parts| == 6 && ParseInt(parts[3]) == Some(a) && parts[5] == IntToString(b) + ".png"
  {
    var sa, sb := IntToString(a), IntToString(b);
    NoUnderscoreInNumber(a);
    NoUnderscoreInNumber(b);
    assert "detections_heatmap" == "detections" + ['_'] + "heatmap";
    assert "_minlevel_" == ['_'] + "minlevel" + ['_'];
    assert "_maxlevel_" == ['_'] + "maxlevel" + ['_'];
    var parts := JoinedName("detections", "heatmap", "minlevel", sa, "maxlevel", sb, ".png");
    assert '_' !in "detections" && '_' !in "heatmap" && '_' !in "minlevel" && '_' !in "maxlevel";
    assert '_' !in ".png";
    SplitJoin(parts, '_');
    ParseIntToString(a);
  }

  /** The file name pattern, regrouped as the `_`-join of its six pieces. */
  lemma JoinedName(d: string, h: string, lo: string, sa: string, hi: string, sb: string, ext: string)
    returns (parts: seq<string>)
    ensures parts == [d, h, lo, sa, hi, sb + ext]
    ensures (d + ['_'] + h) + ((['_'] + lo + ['_']) + sa + (['_'] + hi + ['_']) + sb) + ext == Join(parts, '_')
  {
    parts := [d, h, lo, sa, hi, sb + ext];
    var p := parts;
    assert p[1..] == [h, lo, sa, hi, sb + ext];
    assert p[1..][1..] == [lo, sa, hi, sb + ext];
    assert p[1..][1..][1..] == [sa, hi, sb + ext];
    assert p[1..][1..][1..][1..] == [hi, sb + ext];
    assert p[1..][1..][1..][1..][1..] == [sb + ext];
    var j4 := hi + ['_'] + (sb + ext);
    assert Join(p[1..][1..][1..][1..], '_') == j4;
    var j3 := sa + ['_'] + j4;
    assert Join(p[1..][1..][1..], '_') == j3;
    var j2 := lo + ['_'] + j3;
    assert Join(p[1..][1..], '_') == j2;
    var j1 := h + ['_'] + j2;
    assert Join(p[1..], '_') == j1;
    assert Join(p, '_') == d + ['_'] + j1;
  }

  /** Different non-zero bounds give different file names. */
  lemma HeatmapFileNameInjective(a: int, b: int, c: int, d: int)
    requires a != 0 && b != 0 && c != 0 && d != 0
    requires HeatmapFileName(Some(a), Some(b)) == HeatmapFileName(Some(c), Some(d))
    ensures a == c && b == d
  {
    HeatmapFileNameBounds(a, b);
    HeatmapFileNameBounds(c, d);
    var x, y := IntToString(b), IntToString(d);
    assert x + ".png" == y + ".png";
    assert x == (x + ".png")[..|x|];
    assert y == (y + ".png")[..|y|];
    if b != d {
      IntToStringInjective(b, d);
    }
  }

  /** The digits of an integer hold no `_`. */
  lemma NoUnderscoreInNumber(i: int)
    ensures '_' !in IntToString(i)
  {
    var s := IntToString(i);
    forall k | 0 <= k < |s|
      ensures s[k] != '_'
    {
    }
  }
}
