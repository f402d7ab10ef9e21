# Tree-trunk detection pipeline: a verified model of its core

The system finds tree trunks in orthomosaic images of a plantation. The images
are cut into tiles, a detector runs on each tile, and its detections are mapped
back to the image they came from. One image is a "level". The detections of all
levels are accumulated into an integer coverage grid, the heatmap. The heatmap
is thresholded, clustered, and reduced to weighted cluster centres. These
centres are then scored against ground-truth centres, which are built the same
way from hand-placed points.

This project models the integer and string logic of that pipeline and proves
what it promises. One Dafny module corresponds to each core source file, and
three modules are shared:

- `Base`: `Option` and `Result` (with the Python exception kinds `IndexError`,
  `ValueError`, `TypeError`) and a list filter standing for list comprehensions.
- `Text`: the parts of Python's `str.split`, `"_".join`, `int()`, `str()`,
  `str.replace`, `os.path.splitext` and `str.lower` that the core uses.
- `Raster`: cell windows of a bounding box or a point, truncation toward zero,
  numpy slice stops, the coverage specification, and the in-place painting of a
  level on an `array2<int>`.
- `TreeIdentification` (`evaluacion/tree_identification.py`):
  - the strict level filter;
  - the heatmap builder;
  - the percentage threshold;
  - the noise masking around DBSCAN;
  - the weighted cluster centres.
- `ShapefileHeatmap` (`evaluacion/reuse_shapefile_for_heatmap.py`):
  - the in-place point-window accumulation;
  - the TIFF and shapefile selection;
  - the ground-truth heatmap builder.
- `HeatmapVisualization` (`visualizacion/heatmap_visualization.py`):
  - the tolerant level filter;
  - the coverage grid;
  - the output file name.
- `Evaluate` (`evaluacion/evaluate.py`):
  - coordinate loading;
  - greedy nearest-neighbour association;
  - precision, recall and squared RMSE.
- `PostprocessDetections` (`procesamiento/postprocess_detections.py`):
  - grouping detections by level key;
  - parsing the crop offsets;
  - remapping detections into the image frame.
- `TrainingCrop` (`training_scripts/crop.py`):
  - the overlapping 640-pixel crops;
  - the crop names;
  - the clipping and renormalisation of the labels.
- `CropImages` (`procesamiento/crop_images.py`): the non-overlapping tiles and
  their names.
- `InitialChecks` (`procesamiento/initial_checks.py`): the same-image-size
  check, with its early exit.

Everything outside the core is taken as a parameter, because it has no logic
to model. That covers the directory listings, loaded JSON content, image
sizes, the shapefile coordinate transform and the DBSCAN labelling. Procedures
that loop or mutate state in the source are Dafny methods, each proved against
a specification function:
- the heatmap builders write into an `array2<int>`;
- the groupers and croppers build sequences in loops.

Pure expressions are functions.

Where the written description of the system and the code disagree, the model
follows the code:

- **Association.** `associate_detections_with_ground_truth` never removes a
  ground-truth point from the search tree. Two detections can therefore be
  matched to the same ground-truth point. This is not first-claim-wins.
  `Evaluate.SharedPartnerExample` shows two matches with one partner.
  `false_negatives.remove` only takes away the first equal value.
- **Strict level filter.** The filter in `create_heatmap` (and in
  `build_heatmap_from_shapefiles`) does not skip malformed names:
  - a name without `_` raises `IndexError`;
  - a second token that is not an integer raises `ValueError`.

  The missing-bound case follows Python's short-circuiting chained comparison:
  - with `min_level` absent, any file raises `TypeError`;
  - with `max_level` absent, a file at or above `min_level` raises `TypeError`;
  - with `max_level` absent, a file below `min_level` is silently dropped.
- **Tolerant level filter.** The filter in `heatmap_visualization.py` catches
  `ValueError` only. A name with no `_` still raises `IndexError`.

## Model

| member | source | states |
|---|---|---|
| Base.Filter | evaluacion/tree_identification.py:35-38 | a comprehension's kept items are exactly the input items satisfying the condition, and there are no more of them than inputs |
| Text.SplitJoin | procesamiento/postprocess_detections.py:29 | splitting a `_`-join of `_`-free pieces gives the pieces back |
| Text.JoinSplit | procesamiento/postprocess_detections.py:29 | joining the pieces of a split gives the string back |
| Text.SplitSingle | procesamiento/postprocess_detections.py:71-72 | a split has a single piece exactly when the separator does not occur |
| Text.SplitPiecesLackSep | procesamiento/postprocess_detections.py:71 | no piece of a split contains the separator |
| Text.Split | procesamiento/postprocess_detections.py:29 | `str.split` on one separator character, with at least one piece; SplitJoin, JoinSplit, SplitSingle and SplitPiecesLackSep state its meaning |
| Text.ParseIntToString | procesamiento/postprocess_detections.py:72-73 | `int(str(i)) == i` for every integer |
| Text.ParseInt | procesamiento/postprocess_detections.py:72-73 | `int()` on a string: a non-empty digit string parses to its value, and a result needs a non-empty string |
| Text.IntToString | training_scripts/crop.py:40 | `str()` of an integer: a non-empty string of digits with an optional leading minus |
| Text.IntToStringInjective | training_scripts/crop.py:40 | different integers print differently |
| Text.ReplaceAll | training_scripts/crop.py:39 | definition: `str.replace` replacing every occurrence left to right; ReplaceSuffix states it on the names the core builds |
| Text.ReplaceSuffix | training_scripts/crop.py:39 | replacing a trailing pattern that occurs nowhere else swaps exactly that suffix |
| Text.Lower | procesamiento/initial_checks.py:19 | lower-casing keeps the length and maps each character |
| Text.Stem | evaluacion/reuse_shapefile_for_heatmap.py:79 | `os.path.splitext(name)[0]`: the name itself, or the prefix before a final `.` that is not a leading dot |
| Text.StemOfExtension | evaluacion/reuse_shapefile_for_heatmap.py:79 | `splitext(base + "." + ext)[0] == base` for a dot-free base and extension |
| Raster.Trunc | evaluacion/tree_identification.py:52-55 | `int()` of a float truncates toward zero, on either sign |
| Raster.NumpyStop | evaluacion/tree_identification.py:59-62 | definition: how numpy reads a slice stop of at most n, counting a negative stop from the end of the axis |
| Raster.BoxRectAsWritten | evaluacion/tree_identification.py:52-62 | definition: the box window exactly as written, truncated and clamped corners read with numpy stops; BoxRectAgrees and BoxRectWrapsAsWritten relate it to BoxRect |
| Raster.PointWindowAsWritten | evaluacion/reuse_shapefile_for_heatmap.py:41-47 | definition: the point window exactly as written, read with numpy stops; PointWindowAgrees and PointWindowWrapsAsWritten relate it to PointWindow |
| Raster.ClampStop | evaluacion/tree_identification.py:59-60 | a slice stop clamped into [0, n]: the corrected reading of a negative stop as 0, the Findings rows' intended behaviour |
| Raster.BoxRect | evaluacion/tree_identification.py:52-62 | the corrected window of a box (negative stop read as 0, see Findings) lies inside the grid |
| Raster.BoxRectCells | evaluacion/tree_identification.py:52-62 | a box paints exactly the in-grid cells with trunc(yc-h/2) <= row < trunc(yc+h/2) and trunc(xc-w/2) <= col < trunc(xc+w/2) |
| Raster.BoxRectWrapsAsWritten | evaluacion/tree_identification.py:52-62 | a box above the grid, read with numpy's negative stop, paints rows 0..624; with the stop clamped at 0 it paints nothing |
| Raster.PointWindow | evaluacion/reuse_shapefile_for_heatmap.py:41-47 | the corrected window of a point (negative stop read as 0, see Findings) lies inside the grid |
| Raster.PointWindowCells | evaluacion/reuse_shapefile_for_heatmap.py:41-47 | a point marks exactly the in-grid cells within s//2 of it on both axes |
| Raster.PointWindowSide | evaluacion/reuse_shapefile_for_heatmap.py:41-44 | an unclamped window is 2*(s//2)+1 wide and high, which is 21 for s = 20 |
| Raster.PointWindowWrapsAsWritten | evaluacion/reuse_shapefile_for_heatmap.py:41-47 | a point left of the grid, read with numpy's negative stop, marks columns 0..636; with the stop clamped it marks nothing |
| Raster.BoxRectAgrees | evaluacion/tree_identification.py:52-62 | whenever neither clamped stop of a box is negative, the window as written equals the corrected window |
| Raster.PointWindowAgrees | evaluacion/reuse_shapefile_for_heatmap.py:41-47 | whenever neither clamped stop of a point's window is negative, the window as written equals the corrected window |
| Raster.PointOutsideMarksNothing | evaluacion/reuse_shapefile_for_heatmap.py:41-47 | a point whose window misses the grid marks no cell |
| Raster.SinglePointExample | evaluacion/reuse_shapefile_for_heatmap.py:41-50 | on a 640x640 grid with s = 3, the point (320, 320) marks exactly rows and columns 319..321 |
| Raster.MarkedSnoc | evaluacion/tree_identification.py:62 | painting one more window marks a cell iff it was marked or the window covers it |
| Raster.Coverage | evaluacion/tree_identification.py:40-64 | definition: a cell's value after the levels, the sum over levels of 0/1 for whether any window of that level covers it; its properties are CoverageBounds, CoverageAppend, CoverageOrderIrrelevant and CoverageMonotone |
| Raster.CoverageBounds | evaluacion/tree_identification.py:45-64 | after n levels every cell lies in [0, n] |
| Raster.CoverageAppend | evaluacion/tree_identification.py:40-64 | the coverage of two runs of levels is the sum of their coverages |
| Raster.CoverageOrderIrrelevant | evaluacion/tree_identification.py:40-64 | the order in which levels are processed does not change the heatmap |
| Raster.CoverageMonotone | evaluacion/tree_identification.py:64 | one more level raises a cell by 0 or 1 |
| Raster.PaintRect | evaluacion/tree_identification.py:62 | the slice assignment sets the window's cells to 1 and leaves every other cell unchanged |
| Raster.AddInto | evaluacion/tree_identification.py:64 | `coverage_grid += temp_grid` adds cell by cell |
| Raster.AccumulateLevel | evaluacion/tree_identification.py:45-64 | one level adds its 0/1 mask to every cell of the grid |
| TreeIdentification.LevelOf | evaluacion/tree_identification.py:37 | `int(name.split('_')[1])` fails with IndexError iff the name has no `_`, and never with TypeError |
| TreeIdentification.LevelOfParses | evaluacion/tree_identification.py:37 | the level parses iff there is a second token and it is an integer, and the level is that integer |
| TreeIdentification.LevelOfTokens | evaluacion/tree_identification.py:37 | in `a_t_b` with `_`-free a and t, the level is int(t), or ValueError |
| TreeIdentification.ChainedInRange | evaluacion/tree_identification.py:37 | definition: Python's chained `min_level <= level <= max_level`, short-circuiting, with TypeError for a None bound it reaches |
| TreeIdentification.KeepByLevel | evaluacion/tree_identification.py:37 | definition: the comprehension's condition, the level parse followed by the chained comparison; the Comprehension lemmas state its outcome |
| TreeIdentification.LevelComprehension | evaluacion/tree_identification.py:34-38 | the filtered list keeps only input files and is no longer than the input |
| TreeIdentification.ComprehensionBothBounds | evaluacion/tree_identification.py:35-38 | with both bounds, the filter succeeds iff every level parses, and then keeps exactly the files with min <= level <= max, in order |
| TreeIdentification.ComprehensionMinMissing | evaluacion/tree_identification.py:34-38 | with only max_level given, a non-empty listing raises |
| TreeIdentification.ComprehensionMaxMissing | evaluacion/tree_identification.py:34-38 | with only min_level given, the filter succeeds iff every level parses and lies below min, and then keeps nothing |
| TreeIdentification.SelectJsonFiles | evaluacion/tree_identification.py:31-38 | with no bound, the selection is the `.json` files in listing order; any kept file is a listed `.json` file |
| TreeIdentification.ImageShape | evaluacion/tree_identification.py:20-27 | ValueError iff no listed file is an image; otherwise (height, width) of the first image file |
| TreeIdentification.CreateHeatmap | evaluacion/tree_identification.py:9-64 | the errors are those of the image shape and the level filter; otherwise a fresh grid of the image's shape whose every cell is the coverage of the selected levels, in [0, number of levels], computed with the corrected window of the Findings rows |
| TreeIdentification.RowMax | evaluacion/tree_identification.py:86 | the maximum of a row is one of its cells and bounds all of them |
| TreeIdentification.GridMax | evaluacion/tree_identification.py:86 | `heatmap.max()` is attained by a cell and bounds every cell |
| TreeIdentification.FilterRow | evaluacion/tree_identification.py:90 | each output cell is the input cell if it reaches max*p, else 0 |
| TreeIdentification.FilterRows | evaluacion/tree_identification.py:90 | the filter works row by row and keeps the row count |
| TreeIdentification.FilterHeatmap | evaluacion/tree_identification.py:86-90 | ValueError iff the grid has no cells; otherwise same shape, each cell kept if >= max*p and zeroed otherwise |
| TreeIdentification.FilterKeepsMax | evaluacion/tree_identification.py:86-90 | for 0 <= p <= 1 on a non-negative grid the maximum survives |
| TreeIdentification.FilterIdempotent | evaluacion/tree_identification.py:86-90 | filtering again with the same or a smaller p changes nothing |
| TreeIdentification.FilterMonotone | evaluacion/tree_identification.py:86-90 | a cell that survives a larger p survives a smaller one unchanged |
| TreeIdentification.FilterLowers | evaluacion/tree_identification.py:90 | each output cell is the input cell or 0, so it never exceeds the input |
| TreeIdentification.FilterAllZero | evaluacion/tree_identification.py:86-90 | an all-zero grid is returned unchanged |
| TreeIdentification.RowCells | evaluacion/tree_identification.py:114 | the positive cells of one row, by increasing column |
| TreeIdentification.NonZeroCoords | evaluacion/tree_identification.py:114 | `np.argwhere(g > 0)` lists exactly the positive cells, in row-major order |
| TreeIdentification.DropNoise | evaluacion/tree_identification.py:123-125 | the kept coordinates and labels are parallel, no more than the input, and no label is -1 |
| TreeIdentification.DropNoisePairs | evaluacion/tree_identification.py:123-125 | a (cell, label) pair is kept iff it was an input pair and its label is not -1 |
| TreeIdentification.DropNoiseSorted | evaluacion/tree_identification.py:123-125 | masking keeps the row-major order |
| TreeIdentification.ApplyDbscan | evaluacion/tree_identification.py:114-125 | no positive cells gives empty results; otherwise parallel coordinates and labels without -1 |
| TreeIdentification.ApplyDbscanClusters | evaluacion/tree_identification.py:114-125 | the result is the labelled positive cells minus the noise, in row-major order |
| TreeIdentification.ClusterMoments | evaluacion/tree_identification.py:155-158 | a cluster's total weight is non-negative, and positive iff the label occurs |
| TreeIdentification.MomentsBounds | evaluacion/tree_identification.py:155-160 | weighted coordinate sums lie between weight*min and weight*max of the members' coordinates |
| TreeIdentification.Centroid | evaluacion/tree_identification.py:155-160 | definition: the floor-divided weighted mean column and row of a cluster; CentroidWithinBounds and CentroidOfOneCell state its meaning |
| TreeIdentification.CentroidWithinBounds | evaluacion/tree_identification.py:155-160 | each centre lies within the row and column bounding box of its cluster |
| TreeIdentification.CentroidOfOneCell | evaluacion/tree_identification.py:155-160 | a cluster on a single cell has that cell as its centre, x from the column and y from the row |
| TreeIdentification.CentresOf | evaluacion/tree_identification.py:151-162 | the loop appends, in order, the centre of every listed label other than -1 |
| TreeIdentification.CalculateClusterCenters | evaluacion/tree_identification.py:148-162 | one centre per distinct label other than -1, in set order; every non-noise label's centre is among them |
| TreeIdentification.EveryClusterHasCentre | evaluacion/tree_identification.py:148-162 | every clustered position's label has its centre in the output |
| ShapefileHeatmap.AccumulatePointsWithUniqueCount | evaluacion/reuse_shapefile_for_heatmap.py:30-50 | the caller's grid is raised in place by the level's 0/1 mask, and no other change is made, computed with the corrected window of the Findings rows |
| ShapefileHeatmap.PointRects | evaluacion/reuse_shapefile_for_heatmap.py:37-47 | definition: the corrected window of each point of a level, in order |
| ShapefileHeatmap.PointMaskCells | evaluacion/reuse_shapefile_for_heatmap.py:35-50 | a cell is raised by 1 iff it lies in some point's window, and by 0 otherwise |
| ShapefileHeatmap.DuplicatePointCountsOnce | evaluacion/reuse_shapefile_for_heatmap.py:35-50 | a repeated point counts once |
| ShapefileHeatmap.FirstTiff | evaluacion/reuse_shapefile_for_heatmap.py:67-69 | the first TIFF of the listing, or none iff no listed file is a TIFF |
| ShapefileHeatmap.IsTiffName | evaluacion/reuse_shapefile_for_heatmap.py:67 | definition: a case-insensitive `.tif` or `.tiff` ending |
| ShapefileHeatmap.ShapefileName | evaluacion/reuse_shapefile_for_heatmap.py:79 | definition: the stem of a TIFF name followed by `.shp` |
| ShapefileHeatmap.SelectTiffFiles | evaluacion/reuse_shapefile_for_heatmap.py:77-87 | with no bound, the TIFFs with a same-stem `.shp` in listing order; any kept file is such a TIFF |
| ShapefileHeatmap.SelectBothBounds | evaluacion/reuse_shapefile_for_heatmap.py:83-87 | with both bounds, success iff every stem's level parses, and then exactly the paired TIFFs in range |
| ShapefileHeatmap.StemLevelExample | evaluacion/reuse_shapefile_for_heatmap.py:86 | `P9_120.tif` is a TIFF of level 120 |
| ShapefileHeatmap.AccumulateLevels | evaluacion/reuse_shapefile_for_heatmap.py:90-96 | starting from a zero grid, the loop leaves every cell at the point coverage of the selected levels, computed with the corrected window of the Findings rows |
| ShapefileHeatmap.BuildHeatmapFromShapefiles | evaluacion/reuse_shapefile_for_heatmap.py:52-96 | ValueError when there is no TIFF; level-filter errors otherwise; else a fresh grid whose cells are the point coverage of the selected levels, in [0, number of levels], computed with the corrected window of the Findings rows |
| HeatmapVisualization.FilterByLevel | visualizacion/heatmap_visualization.py:39-49 | IndexError iff some name has no `_`; otherwise exactly the names whose level parses and lies within the given bounds, in order |
| HeatmapVisualization.KeptExample | visualizacion/heatmap_visualization.py:41-46 | `a_7_b.json` is kept for bounds 5..10 |
| HeatmapVisualization.SkipExample | visualizacion/heatmap_visualization.py:43-48 | `a_x_b.json` raises ValueError on parsing and is skipped |
| HeatmapVisualization.SelectedFiles | visualizacion/heatmap_visualization.py:36-49 | definition: the `.json` files, tolerantly level-filtered when a bound is given; SelectCoverageFiles returns it on success |
| HeatmapVisualization.SelectCoverageFiles | visualizacion/heatmap_visualization.py:36-49 | the `.json` files, level-filtered when a bound is given; IndexError iff filtering meets a name without `_` |
| HeatmapVisualization.CreateCoverageGrid | visualizacion/heatmap_visualization.py:34-82 | the same error condition; otherwise a fresh grid whose cells are the box coverage of the selected levels, in [0, number of levels], computed with the corrected window of the Findings rows |
| HeatmapVisualization.BoundText | visualizacion/heatmap_visualization.py:110 | definition: `bound or word`, the word for None and for 0, else the integer printed |
| HeatmapVisualization.HeatmapFileName | visualizacion/heatmap_visualization.py:109-114 | definition: `detections_heatmap` plus the level suffix when a bound is given, then `.png`; PlainNameIffUnbounded, HeatmapFileNameBounds and HeatmapFileNameInjective state its meaning |
| HeatmapVisualization.PlainNameIffUnbounded | visualizacion/heatmap_visualization.py:109-114 | the name is `detections_heatmap.png` iff neither bound is given |
| HeatmapVisualization.ZeroBoundPrintsWord | visualizacion/heatmap_visualization.py:110 | a bound of 0 prints like a missing one |
| HeatmapVisualization.HeatmapFileNameBounds | visualizacion/heatmap_visualization.py:110-114 | with non-zero bounds a and b, the name's `_`-tokens carry a and b back |
| HeatmapVisualization.HeatmapFileNameInjective | visualizacion/heatmap_visualization.py:109-114 | different non-zero bound pairs give different file names |
| Evaluate.LoadCoordinates | evaluacion/evaluate.py:7-10 | each entry is reduced to its first two components; IndexError iff some entry is shorter than 2 |
| Evaluate.LoadDumped | evaluacion/evaluate.py:10 | loading dumped pairs gives them back |
| Evaluate.SqDist | evaluacion/evaluate.py:24 | definition: the squared Euclidean distance the KDTree query measures |
| Evaluate.Nearest | evaluacion/evaluate.py:24 | the index of a nearest ground-truth point, the first among equals |
| Evaluate.CloseIffSomeWithin | evaluacion/evaluate.py:24-25 | a detection is matched iff some ground-truth point is strictly closer than max_distance |
| Evaluate.Close | evaluacion/evaluate.py:24-25 | definition: the nearest ground-truth point is strictly within max_distance, compared on squares |
| Evaluate.RemoveFirst | evaluacion/evaluate.py:28-29 | `remove` after the membership test takes one occurrence away, or nothing when absent |
| Evaluate.RemoveFirstSubsequence | evaluacion/evaluate.py:29 | removal keeps the order of the rest |
| Evaluate.Step | evaluacion/evaluate.py:23-31 | definition: one loop iteration, appending a match and removing its partner from the false negatives, or appending a false positive |
| Evaluate.Associate | evaluacion/evaluate.py:23-31 | definition: the iterations over the detections in order; the Association lemmas state its meaning |
| Evaluate.AssociateDetections | evaluacion/evaluate.py:12-37 | the loop computes the association of the detections in input order |
| Evaluate.AssociationSizes | evaluacion/evaluate.py:23-31 | matches plus false positives number the detections |
| Evaluate.AssociationSplit | evaluacion/evaluate.py:23-31 | the matched detections are exactly the close ones, and the false positives exactly the far ones, each in input order |
| Evaluate.MatchesAreNearest | evaluacion/evaluate.py:24-27 | every match pairs a close detection with a nearest ground-truth point |
| Evaluate.FalseNegativesRemaining | evaluacion/evaluate.py:21-29 | false negatives are the ground truth minus the matched partners, as multisets, and number at least |GT| - |matches| |
| Evaluate.FalseNegativesInOrder | evaluacion/evaluate.py:21-29 | false negatives are an order-preserving subsequence of the ground truth |
| Evaluate.AssociateBothMatch | evaluacion/evaluate.py:23-29 | two close detections are both matched to their nearest points, even to the same one |
| Evaluate.SharedPartnerExample | evaluacion/evaluate.py:17-29 | two detections near one ground-truth point are both matched to it |
| Evaluate.AssociateMatchThenMiss | evaluacion/evaluate.py:23-31 | a close then a far detection give one match and one false positive |
| Evaluate.AssociationExample | evaluacion/evaluate.py:12-37 | GT (100,100),(500,500) and detections (102,101),(700,700) at distance 20: one match, FP (700,700), FN (500,500) |
| Evaluate.CalculateMetrics | evaluacion/evaluate.py:40-64 | precision and recall lie in [0, 1], each 1 exactly when there are matches and no FP (resp. FN); RMSE² is absent iff there are no matches, and non-negative |
| Evaluate.Ratio | evaluacion/evaluate.py:47-48 | definition: `tp / (tp + other)` guarded to 0 when the denominator is 0; RatioBounds states its range |
| Evaluate.RatioBounds | evaluacion/evaluate.py:47-48 | a guarded ratio tp/(tp+other) lies in [0, 1] and is 1 iff tp > 0 and other = 0 |
| Evaluate.SumSquares | evaluacion/evaluate.py:56 | the summed squared differences are non-negative |
| Evaluate.SumSquaresZero | evaluacion/evaluate.py:56 | the squared error is 0 iff every matched pair coincides |
| Evaluate.RmseExample | evaluacion/evaluate.py:51-58 | the pair (10,10)/(13,14) gives RMSE² = 12.5 |
| Evaluate.MetricsExample | evaluacion/evaluate.py:40-48 | the example association has precision = recall = 0.5 |
| PostprocessDetections.ShortNameKey | procesamiento/postprocess_detections.py:29 | a name of fewer than three `_`-tokens has the empty level key |
| PostprocessDetections.LevelKey | procesamiento/postprocess_detections.py:29 | definition: `"_".join(name.split("_")[:-2])`; ShortNameKey and CropNameRoundTrip state its meaning |
| PostprocessDetections.Keys | procesamiento/postprocess_detections.py:23-32 | definition: the dictionary's keys in insertion order; KeysListed states its meaning |
| PostprocessDetections.KeysListed | procesamiento/postprocess_detections.py:23-32 | the dictionary's keys are exactly the detections' level keys, each once, by first appearance |
| PostprocessDetections.SplitDetectionsByLevel | procesamiento/postprocess_detections.py:23-32 | the keys come out in first-appearance order, and each key's list is exactly the detections with that key, in input order |
| PostprocessDetections.GroupsPartition | procesamiento/postprocess_detections.py:23-32 | every detection is in its own key's group and in no other, and the group sizes add up to the input size |
| PostprocessDetections.GroupSizes | procesamiento/postprocess_detections.py:23-32 | the group sizes add up to the number of detections |
| PostprocessDetections.ParseOffsets | procesamiento/postprocess_detections.py:71-73 | IndexError iff the name has no `_`; any other failure is ValueError |
| PostprocessDetections.CropNameRoundTrip | procesamiento/postprocess_detections.py:29-73 | the name `{b}_{x}_{y}.png` parses back to offsets (x, y) and level key b, for every base and integers |
| PostprocessDetections.TileNameRefused | procesamiento/postprocess_detections.py:71-73 | the non-overlapping tiles' names `crop_N.png` fail with ValueError |
| PostprocessDetections.Shift | procesamiento/postprocess_detections.py:76-89 | definition: the remapped record, its centre moved by the offset and its image named after the group file; ShiftUndone states its meaning |
| PostprocessDetections.ShiftUndone | procesamiento/postprocess_detections.py:76-89 | remapping moves only the centre, by the offset, and is undone by moving it back |
| PostprocessDetections.GroupFileImage | procesamiento/postprocess_detections.py:81 | the group file `{k}.json` names its remapped detections `k` |
| PostprocessDetections.RemapDetections | procesamiento/postprocess_detections.py:65-90 | fails iff some crop name does not parse, with the first such error; otherwise the same length and order, each detection shifted by its own offset |
| TrainingCrop.CountIsRange | training_scripts/crop.py:27-28 | `range(0, extent, 540)` has an index k iff k*540 < extent |
| TrainingCrop.Count | training_scripts/crop.py:27-28 | definition: the length of `range(0, extent, 540)`; CountIsRange states its meaning |
| TrainingCrop.ClampOrigin | training_scripts/crop.py:30-33 | definition: an origin moved back to extent - 640 when its crop would pass the edge; Origins and LastOriginAtEdge state its meaning |
| TrainingCrop.Origins | training_scripts/crop.py:27-33 | one origin per range step; each crop ends inside the extent, and its origin is non-negative iff the extent is at least 640 |
| TrainingCrop.LastOriginAtEdge | training_scripts/crop.py:30-33 | for extent >= 640 the last origin is extent - 640 |
| TrainingCrop.OriginGaps | training_scripts/crop.py:27-33 | consecutive origins differ by 0 to 540 |
| TrainingCrop.OriginsCover | training_scripts/crop.py:27-36 | for extent >= 640 every pixel lies in some crop |
| TrainingCrop.RepeatedOriginExample | training_scripts/crop.py:27-33 | extent 1180 gives origins 0, 540, 540 |
| TrainingCrop.BaseName | training_scripts/crop.py:39 | definition: `replace('.png', '')` of the image name |
| TrainingCrop.CropName | training_scripts/crop.py:40 | definition: `{base}_{x}_{y}.png`; CropNameInjective and CropNameRoundTrip state its meaning |
| TrainingCrop.LabelName | training_scripts/crop.py:42 | definition: `replace('.png', '.txt')` of the crop name |
| TrainingCrop.BaseNameOfPng | training_scripts/crop.py:39 | the base name of `stem.png` is `stem` |
| TrainingCrop.LabelNameOfCrop | training_scripts/crop.py:42 | the label file of crop `b_x_y.png` is `b_x_y.txt` |
| TrainingCrop.CropNameInjective | training_scripts/crop.py:40 | different origins give different crop names |
| TrainingCrop.ToPixels | training_scripts/crop.py:53-62 | definition: the normalised label scaled to pixels and turned into its corners |
| TrainingCrop.ClipToCrop | training_scripts/crop.py:58-82 | a label is kept iff its box overlaps the crop with positive area on both axes; the kept label has class int(cls), centre in [0, 1], size in (0, 1] and no larger than the box; a box inside the crop keeps its size and shifts by the origin |
| TrainingCrop.Kept | training_scripts/crop.py:48-84 | no more labels are kept than given |
| TrainingCrop.KeptLabels | training_scripts/crop.py:48-89 | every kept label is normalised, and none is kept iff every label misses the crop |
| TrainingCrop.ClipLabels | training_scripts/crop.py:48-84 | the label loop keeps the clipped labels in order |
| TrainingCrop.CutCrop | training_scripts/crop.py:35-89 | one crop: its name, label file name, origin and the labels written, or none when no label survives |
| TrainingCrop.CropRow | training_scripts/crop.py:28-89 | one crop per column origin |
| TrainingCrop.Crops | training_scripts/crop.py:27-89 | rows times columns crops |
| TrainingCrop.ProcessRow | training_scripts/crop.py:28-89 | the inner loop, with the clamped row origin, cuts the row's crops in order |
| TrainingCrop.ProcessImage | training_scripts/crop.py:17-89 | the nested loops cut the image's crops row by row |
| TrainingCrop.CropsInside | training_scripts/crop.py:27-36 | for an image of at least 640x640, every crop lies inside it and is named after its origin |
| TrainingCrop.RepeatedNameExample | training_scripts/crop.py:27-45 | width 1180 writes the same crop name twice in a row |
| CropImages.TileNameInjective | procesamiento/crop_images.py:30-33 | different counters give different tile names |
| CropImages.TileName | procesamiento/crop_images.py:30 | definition: `crop_{n}.png` |
| CropImages.Spans | procesamiento/crop_images.py:23-26 | definition: the spans `[v, min(v + c, extent))` for v in `range(0, extent, c)`; the Spans lemmas state their meaning |
| CropImages.SpansInside | procesamiento/crop_images.py:23-26 | each span is non-empty, at most c long and inside [0, extent) |
| CropImages.SpansPartition | procesamiento/crop_images.py:23-26 | each coordinate of [0, extent) lies in exactly one span, and any other in none |
| CropImages.SpansCount | procesamiento/crop_images.py:23-24 | the number n of spans satisfies (n-1)*c < extent <= n*c |
| CropImages.SpansCeil | procesamiento/crop_images.py:23-24 | the number of spans is the ceiling of extent / c |
| CropImages.Row | procesamiento/crop_images.py:24-33 | one tile per column span |
| CropImages.Grid | procesamiento/crop_images.py:20-33 | the k-th tile, row-major, is named `crop_k.png` |
| CropImages.GridSize | procesamiento/crop_images.py:23-24 | rows times columns tiles |
| CropImages.Tiles | procesamiento/crop_images.py:23-33 | definition: the row-major grid of the row and column spans; the Tiles lemmas state its meaning |
| CropImages.TilesPartition | procesamiento/crop_images.py:23-27 | the tiles cover each pixel of the image exactly once and nothing outside |
| CropImages.TilesInside | procesamiento/crop_images.py:23-26 | every tile is non-empty, at most c on a side, and inside the image |
| CropImages.TileNamesDistinct | procesamiento/crop_images.py:20-33 | no two tiles share a name |
| CropImages.TileCount | procesamiento/crop_images.py:20-33 | the tile count is ceil(H/c) * ceil(W/c) |
| CropImages.CutRow | procesamiento/crop_images.py:24-33 | the inner loop cuts the row's tiles and advances the counter by their number |
| CropImages.CropImage | procesamiento/crop_images.py:4-33 | crop_size 0 raises ValueError; a negative size cuts nothing; a positive size cuts exactly the row-major tile grid |
| InitialChecks.DirSizes | procesamiento/initial_checks.py:19-24 | one size per image file of a directory |
| InitialChecks.IsImageName | procesamiento/initial_checks.py:19 | definition: a case-insensitive image extension; UpperCaseImageName and TextFileIsNotImage exemplify it |
| InitialChecks.MismatchFound | procesamiento/initial_checks.py:29-32 | an image that differs from agreeing predecessors is the first mismatch, and the sizes do not all agree |
| InitialChecks.ScanDirectory | procesamiento/initial_checks.py:19-32 | the inner loop either passes the directory with all sizes equal to the reference, or stops at the first differing image file |
| InitialChecks.CheckSameImageSizes | procesamiento/initial_checks.py:5-34 | success iff all image sizes, across the directories in order, equal the first; otherwise the first mismatching file, with later files unexamined |
| InitialChecks.UpperCaseImageName | procesamiento/initial_checks.py:19 | extensions match case-insensitively |
| InitialChecks.TextFileIsNotImage | procesamiento/initial_checks.py:19 | other extensions are not images |

## Left out

- I/O is not modelled. Files, directory listings, JSON loading and dumping,
  `makedirs`, `tqdm`, `print` and `sys.exit` all stand outside the model.
  Listings, loaded records and image sizes are inputs, and the outcomes are
  result values.
- Plotting is not modelled. That covers every `show` branch and
  `draw_coverage_grid`.
- Pixel content is not modelled: image reading and writing through PIL and
  cv2, and the slicing of crops. The crops are modelled by origin, name and
  labels. The negative-start slice that an image smaller than 640 pixels would
  produce is therefore outside the model.
- Georeferencing is not modelled. `convert_shapefile_to_image_coords` is a
  rasterio/geopandas transform, so its points are an input function.
- DBSCAN is not modelled. It is an input function returning one label per
  point; only the masking around it is modelled.
- The iteration order of `set(labels)` in `calculate_cluster_centers` is
  CPython's, so it is an input.
- TreeIdentification.CalculateClusterCenters: requires every clustered cell to
  be positive, because the source divides by the cluster's total weight.
  Division is modelled as floor division of integers. Float rounding is not
  modelled.
- Evaluate.Nearest: KDTree's choice among equidistant points is unspecified;
  the model takes the first.
- Evaluate.AssociateDetections: requires non-empty ground truth, because the
  behaviour of a KDTree over no points is not part of this model.
- Evaluate.CalculateMetrics: states the squared RMSE, because the model has no
  square root.
- Raster.ClampStop: reads a negative slice stop as 0, the corrected behaviour
  of the two Findings rows, not numpy's count from the end of the axis.
- Raster.BoxRect: is the corrected box window. BoxRectAgrees shows that it
  equals the window as written whenever neither clamped stop is negative.
- Raster.PointWindow: is the corrected point window. PointWindowAgrees shows
  that it equals the window as written whenever neither clamped stop is
  negative.
- TreeIdentification.CreateHeatmap: paints the corrected windows. A window
  whose clamped stop is negative marks nothing here; the source wraps it
  across the grid.
- HeatmapVisualization.CreateCoverageGrid: paints the corrected windows. A window
  whose clamped stop is negative marks nothing here; the source wraps it
  across the grid.
- ShapefileHeatmap.AccumulatePointsWithUniqueCount: paints the corrected windows. A window
  whose clamped stop is negative marks nothing here; the source wraps it
  across the grid.
- ShapefileHeatmap.AccumulateLevels: paints the corrected windows. A window
  whose clamped stop is negative marks nothing here; the source wraps it
  across the grid.
- ShapefileHeatmap.BuildHeatmapFromShapefiles: paints the corrected windows. A window
  whose clamped stop is negative marks nothing here; the source wraps it
  across the grid.
- Text.Lower: lower-cases ASCII letters only, while `str.lower` is Unicode
  (`'É'` becomes `'é'`, `'İ'` becomes two characters). The core only uses it
  to test the ASCII endings `.png`, `.jpg`, `.jpeg`, `.tif` and `.tiff`, and
  it decides those exactly as Python does.
- Floating-point arithmetic is not modelled. Coordinates and percentages are
  exact reals, and the `%.6f` formatting of label files is left out.
- Label-line parsing is not modelled. Labels are inputs already read as five
  numbers, so a malformed line (`map(float, label.split())`) is not modelled.
- Python `int()` is modelled on an optional sign followed by ASCII digits.
  Surrounding whitespace, underscores between digits and non-ASCII digits are
  not modelled.
- The final writing loops are not modelled: one JSON file per group in
  `split_detections_by_level`, and one per input file in
  `remap_detections_to_original`. Per group, or per file, the model gives the
  content that is written.
- `detect_trees_from_heatmap` and `create_ground_truth_tree_positions` are not
  modelled. They only chain the modelled steps and write JSON.

## Findings

| source | as written | input that shows it | evidently intended | confidence | as-written member | corrected member |
|---|---|---|---|---|---|---|
| evaluacion/tree_identification.py:52-62 | `y_max = min(H, int(yc + h/2))` may be negative, and `temp_grid[y_min:y_max, ...]` then counts the stop from the end of the axis (the same lines recur at visualizacion/heatmap_visualization.py:67-78) | a box centred at (100, -20), 10x10, on a 640x640 grid: y_max = -15 paints rows 0..624 of columns 95..104 | a box entirely outside the grid paints nothing | not executed | Raster.BoxRectWrapsAsWritten | Raster.BoxRectCells |
| evaluacion/reuse_shapefile_for_heatmap.py:41-47 | `x_max = min(W, x + s//2 + 1)` may be negative, and the slice stop then counts from the end of the axis | point (-5, 100) with s = 3 on a 640x640 grid: x_max = -3 marks columns 0..636 of rows 99..101 | a point whose window lies outside the grid marks nothing | not executed | Raster.PointWindowWrapsAsWritten | Raster.PointWindowCells |
