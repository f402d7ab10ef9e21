/**
 * Cutting a training image into overlapping 640-pixel crops: the crop origins
 * step by 540 pixels and are pulled back at the far edge, each crop is named
 * after its origin, and every YOLO label is clipped to the crop and expressed
 * again in the crop's own normalised coordinates.
 */
module TrainingCrop {
  import opened Base
  import opened Text
  import Raster

  /** `image_size`: the side of every crop. */
  const ImageSize: int := 640
  /** `overlap`: how far neighbouring crops share pixels. */
  const Overlap: int := 100
  /** `stride = image_size - overlap`. */
  const Stride: int := ImageSize - Overlap

  // ---------------------------------------------------------------- origins

  /** The number of values of `range(0, extent, stride)`. */
  function Count(extent: int): nat
  {
    if extent <= 0 then 0 else (extent - 1) / Stride + 1
  }

  /** The k-th value of the range is below `extent` exactly for the first Count(extent) values of k. */
  lemma CountIsRange(extent: int, k: nat)
    ensures k < Count(extent) <==> k * Stride < extent
  {
  }

  /** A range value whose crop would run past the edge is replaced by `extent - image_size`. */
  function ClampOrigin(v: int, extent: int): int
  {
    if v + ImageSize > extent then extent - ImageSize else v
  }

  /**
   * The origins one axis of the image is cut at, in loop order. Every crop ends
   * at or before the edge; it starts inside the image exactly when the image is
   * at least one crop wide.
   */
  function Origins(extent: int): (r: seq<int>)
    ensures |r| == Count(extent)
    ensures forall k :: 0 <= k < |r| ==> r[k] + ImageSize <= extent && (0 <= r[k] <==> ImageSize <= extent)
  {
    seq(Count(extent), k requires 0 <= k < Count(extent) => ClampOrigin(Stride * k, extent))
  }

  /** On an image at least one crop wide, the last crop ends exactly at the edge. */
  lemma LastOriginAtEdge(extent: int)
    requires extent >= ImageSize
    ensures |Origins(extent)| > 0 && Origins(extent)[|Origins(extent)| - 1] == extent - ImageSize
  {
    var n := Count(extent);
    assert (n - 1) * Stride + ImageSize > extent;
  }

  /** Consecutive origins never go back and never skip more than one stride. */
  lemma OriginGaps(extent: int, k: nat)
    requires 0 < k < Count(extent)
    ensures 0 <= Origins(extent)[k] - Origins(extent)[k - 1] <= Stride
  {
  }

  /** On an image at least one crop wide, every pixel of the axis lies in some crop. */
  lemma OriginsCover(extent: int, p: int)
    requires extent >= ImageSize && 0 <= p < extent
    ensures exists k :: 0 <= k < Count(extent) && Origins(extent)[k] <= p < Origins(extent)[k] + ImageSize
  {
    var k := p / Stride;
    CountIsRange(extent, k);
    assert Origins(extent)[k] <= p < Origins(extent)[k] + ImageSize;
  }

  /** A 1180-pixel axis is cut at 0, 540 and 540 again: the last crop repeats the one before it. */
  lemma RepeatedOriginExample()
    ensures Origins(1180) == [0, 540, 540]
  {
    assert Count(1180) == 3;
  }

  // ---------------------------------------------------------------- names

  /** `os.path.basename(image_path).replace('.png', '')` for a bare file name. */
  function BaseName(imageName: string): string
  {
    ReplaceAll(imageName, ".png", "")
  }

  /** A PNG whose stem has no dot loses exactly its extension. */
  lemma BaseNameOfPng(stem: string)
    requires '.' !in stem
    ensures BaseName(stem + ".png") == stem
  {
    ReplaceSuffix(stem, ".png", "");
  }

  /** `f'{base_name}_{x}_{y}.png'`. */
  function CropName(base: string, x: int, y: int): string
  {
    base + "_" + IntToString(x) + "_" + IntToString(y) + ".png"
  }

  /** `crop_name.replace('.png', '.txt')`. */
  function LabelName(cropName: string): string
  {
    ReplaceAll(cropName, ".png", ".txt")
  }

  /** When the base has no dot, the label file of a crop differs from it only in its extension. */
  lemma LabelNameOfCrop(base: string, x: int, y: int)
    requires '.' !in base
    ensures LabelName(CropName(base, x, y)) == base + "_" + IntToString(x) + "_" + IntToString(y) + ".txt"
  {
    var d := base + "_" + IntToString(x) + "_" + IntToString(y);
    NumberLacks(x, '.');
    NumberLacks(y, '.');
    assert '.' !in d;
    assert CropName(base, x, y) == d + ".png";
    ReplaceSuffix(d, ".png", ".txt");
  }

  /** Crops at different origins get different names. */
  lemma CropNameInjective(base: string, x: int, y: int, x': int, y': int)
    requires (x, y) != (x', y')
    ensures CropName(base, x, y) != CropName(base, x', y')
  {
    var sx, sy, sx', sy' := IntToString(x), IntToString(y), IntToString(x'), IntToString(y');
    NumberLacks(x, '_'); NumberLacks(y, '_'); NumberLacks(x', '_'); NumberLacks(y', '_');
    assert '_' !in sy + ".png" && '_' !in sy' + ".png";
    LastTwoPieces(base, sx, sy + ".png");
    LastTwoPieces(base, sx', sy' + ".png");
    assert CropName(base, x, y) == base + "_" + sx + "_" + (sy + ".png");
    assert CropName(base, x', y') == base + "_" + sx' + "_" + (sy' + ".png");
    if CropName(base, x, y) == CropName(base, x', y') {
      var p := Split(CropName(base, x, y), '_');
      assert p[|p| - 2] == sx && p[|p| - 1] == sy + ".png";
      assert p[|p| - 2] == sx' && p[|p| - 1] == sy' + ".png";
      assert sy == (sy + ".png")[..|sy|];
      assert sy' == (sy' + ".png")[..|sy'|];
      if x != x' {
        IntToStringInjective(x, x');
      } else {
        IntToStringInjective(y, y');
      }
    }
  }

  /** The last two pieces of `a_b_c` split on `_`, when neither b nor c holds a `_`. */
  lemma LastTwoPieces(a: string, b: string, c: string)
    requires '_' !in b && '_' !in c
    ensures Split(a + "_" + b + "_" + c, '_') == Split(a, '_') + [b, c]
  {
    var s := a + "_" + b + "_" + c;
    assert s == a + ['_'] + (b + ['_'] + c);
    SplitConcat(b, c, '_');
    SplitConcat(a, b + ['_'] + c, '_');
    SplitNoSep(b, '_');
    SplitNoSep(c, '_');
  }

  // ---------------------------------------------------------------- labels

  /** One YOLO label line: class and box, the box normalised to the whole image. */
  datatype Label = Label(cls: real, xCenter: real, yCenter: real, width: real, height: real)

  /** A label written for a crop: integer class and a box normalised to the crop. */
  datatype CropLabel = CropLabel(cls: int, xCenter: real, yCenter: real, width: real, height: real)

  /** A box's corners in image pixels. */
  datatype PixelBox = PixelBox(x1: real, y1: real, x2: real, y2: real)

  function RMax(a: real, b: real): real { if a >= b then a else b }
  function RMin(a: real, b: real): real { if a <= b then a else b }

  /** The label scaled by the image size and turned into corners. */
  function ToPixels(l: Label, w: int, h: int): PixelBox
  {
    var xc, yc := l.xCenter * w as real, l.yCenter * h as real;
    var bw, bh := l.width * w as real, l.height * h as real;
    PixelBox(xc - bw / 2.0, yc - bh / 2.0, xc + bw / 2.0, yc + bh / 2.0)
  }

  /**
   * The box intersected with the crop at (x, y), moved to the crop's origin and
   * divided by 640. A box is kept exactly when it overlaps the crop with a positive
   * extent on both axes; a kept box's centre and size lie in [0, 1], its size
   * never exceeds the original, and a box wholly inside the crop keeps its size
   * while its centre moves by (-x, -y). The class is truncated to an integer.
   */
  function ClipToCrop(cls: real, b: PixelBox, x: int, y: int): (r: Option<CropLabel>)
    ensures r.Some? <==>
      && b.x1 < b.x2 && b.x1 < (x + ImageSize) as real && (x as real) < b.x2
      && b.y1 < b.y2 && b.y1 < (y + ImageSize) as real && (y as real) < b.y2
    ensures r.Some? ==>
      && r.value.cls == Raster.Trunc(cls)
      && 0.0 <= r.value.xCenter <= 1.0 && 0.0 <= r.value.yCenter <= 1.0
      && 0.0 < r.value.width <= 1.0 && 0.0 < r.value.height <= 1.0
      && r.value.width * 640.0 <= b.x2 - b.x1 && r.value.height * 640.0 <= b.y2 - b.y1
    ensures r.Some? && (x as real) <= b.x1 && b.x2 <= (x + ImageSize) as real ==>
      r.value.width * 640.0 == b.x2 - b.x1 && r.value.xCenter * 640.0 == (b.x1 + b.x2) / 2.0 - x as real
    ensures r.Some? && (y as real) <= b.y1 && b.y2 <= (y + ImageSize) as real ==>
      r.value.height * 640.0 == b.y2 - b.y1 && r.value.yCenter * 640.0 == (b.y1 + b.y2) / 2.0 - y as real
  {
    var x1 := RMax(b.x1, x as real);
    var y1 := RMax(b.y1, y as real);
    var x2 := RMin(b.x2, (x + ImageSize) as real);
    var y2 := RMin(b.y2, (y + ImageSize) as real);
    if x1 < x2 && y1 < y2 then
      Some(CropLabel(Raster.Trunc(cls),
                     ((x1 + x2) / 2.0 - x as real) / 640.0, ((y1 + y2) / 2.0 - y as real) / 640.0,
                     (x2 - x1) / 640.0, (y2 - y1) / 640.0))
    else None
  }

  /** What one label line becomes in the crop at (x, y) of a w-by-h image. */
  function ClipLabel(l: Label, w: int, h: int, x: int, y: int): Option<CropLabel>
  {
    ClipToCrop(l.cls, ToPixels(l, w, h), x, y)
  }

  /** The labels kept for the crop at (x, y), in file order. */
  function Kept(labels: seq<Label>, w: int, h: int, x: int, y: int): (r: seq<CropLabel>)
    ensures |r| <= |labels|
  {
    if |labels| == 0 then []
    else
      var c := ClipLabel(labels[|labels| - 1], w, h, x, y);
      Kept(labels[..|labels| - 1], w, h, x, y) + (if c.Some? then [c.value] else [])
  }

  /** A kept label is normalised: centre and size in [0, 1]. */
  predicate Normalised(c: CropLabel)
  {
    0.0 <= c.xCenter <= 1.0 && 0.0 <= c.yCenter <= 1.0 && 0.0 < c.width <= 1.0 && 0.0 < c.height <= 1.0
  }

  /**
   * The kept labels are exactly the clipped labels that survive, in file order:
   * every one is normalised, and none is kept when no label overlaps the crop.
   */
  lemma {:induction false} KeptLabels(labels: seq<Label>, w: int, h: int, x: int, y: int)
    ensures forall c :: c in Kept(labels, w, h, x, y) ==> Normalised(c)
    ensures |Kept(labels, w, h, x, y)| == 0 <==>
      forall k :: 0 <= k < |labels| ==> ClipLabel(labels[k], w, h, x, y).None?
    decreases |labels|
  {
    if |labels| > 0 {
      var init := labels[..|labels| - 1];
      KeptLabels(init, w, h, x, y);
      assert forall k :: 0 <= k < |init| ==> init[k] == labels[k];
    }
  }

  /** The labels are clipped one by one, the survivors appended. */
  method ClipLabels(labels: seq<Label>, w: int, h: int, x: int, y: int) returns (kept: seq<CropLabel>)
    ensures kept == Kept(labels, w, h, x, y)
  {
    kept := [];
    for k := 0 to |labels|
      invariant kept == Kept(labels[..k], w, h, x, y)
    {
      assert labels[..k + 1][..k] == labels[..k];
      var c := ClipLabel(labels[k], w, h, x, y);
      if c.Some? {
        kept := kept + [c.value];
      }
    }
    assert labels[..|labels|] == labels;
  }

  // ---------------------------------------------------------------- one image

  /**
   * One crop written by `process_image`: the image's name and origin, and its
   * label file's name and lines, which are only written when some label survives.
   */
  datatype CropFile = CropFile(name: string, labelName: string, x: int, y: int, labels: Option<seq<CropLabel>>)

  function CropAt(base: string, x: int, y: int, w: int, h: int, labels: seq<Label>): CropFile
  {
    var name := CropName(base, x, y);
    var kept := Kept(labels, w, h, x, y);
    CropFile(name, LabelName(name), x, y, if |kept| == 0 then None else Some(kept))
  }

  /** One crop: its name and label file name, and its clipped labels if any survive. */
  method CutCrop(base: string, x: int, y: int, w: int, h: int, labels: seq<Label>) returns (file: CropFile)
    ensures file == CropAt(base, x, y, w, h, labels)
  {
    var kept := ClipLabels(labels, w, h, x, y);
    var name := CropName(base, x, y);
    file := CropFile(name, LabelName(name), x, y, if |kept| == 0 then None else Some(kept));
  }

  /** The crops of one row, whose clamped origin is y. */
  function CropRow(base: string, y: int, w: int, h: int, labels: seq<Label>): (r: seq<CropFile>)
    ensures |r| == Count(w)
  {
    seq(Count(w), k requires 0 <= k < Count(w) => CropAt(base, Origins(w)[k], y, w, h, labels))
  }

  /** The crops of the first `rows` rows, row by row. */
  function CropsUpTo(base: string, rows: nat, w: int, h: int, labels: seq<Label>): (r: seq<CropFile>)
    requires rows <= Count(h)
    ensures |r| == rows * Count(w)
  {
    if rows == 0 then []
    else CropsUpTo(base, rows - 1, w, h, labels) + CropRow(base, Origins(h)[rows - 1], w, h, labels)
  }

  /** Every crop of the image, in the order the nested loops write them. */
  function Crops(imageName: string, w: int, h: int, labels: seq<Label>): (r: seq<CropFile>)
    ensures |r| == Count(h) * Count(w)
  {
    CropsUpTo(BaseName(imageName), Count(h), w, h, labels)
  }

  /**
   * `process_image` for a w-by-h image: rows at y in range(0, h, 540), each row
   * cut by ProcessRow.
   */
  method ProcessImage(imageName: string, w: int, h: int, labels: seq<Label>) returns (crops: seq<CropFile>)
    ensures crops == Crops(imageName, w, h, labels)
  {
    var base := BaseName(imageName);
    crops := [];
    for row := 0 to Count(h)
      invariant crops == CropsUpTo(base, row, w, h, labels)
    {
      var files := ProcessRow(base, Stride * row, w, h, labels);
      crops := crops + files;
    }
  }

  /**
   * The inner loop of `process_image` for the row at range value `rowStart`: crops at x in
   * range(0, w, 540), each origin clamped back to the edge before the crop is cut,
   * named and its labels clipped. The row's own origin is clamped in the first
   * pass and stays so.
   */
  method ProcessRow(base: string, rowStart: int, w: int, h: int, labels: seq<Label>) returns (files: seq<CropFile>)
    ensures files == CropRow(base, ClampOrigin(rowStart, h), w, h, labels)
  {
    ghost var target := CropRow(base, ClampOrigin(rowStart, h), w, h, labels);
    var y := rowStart;
    files := [];
    for col := 0 to Count(w)
      invariant ClampOrigin(y, h) == ClampOrigin(rowStart, h)
      invariant files == target[..col]
    {
      var x := Stride * col;
      if x + ImageSize > w {
        x := w - ImageSize;
      }
      if y + ImageSize > h {
        y := h - ImageSize;
      }
      assert x == Origins(w)[col];
      var file := CutCrop(base, x, y, w, h, labels);
      assert file == target[col];
      PrefixSnoc(target, col);
      files := files + [file];
    }
    assert target[..Count(w)] == target;
  }

  /** Every crop of a row lies inside the image when the row does and the image is wide enough. */
  lemma CropRowInside(base: string, y: int, w: int, h: int, labels: seq<Label>)
    requires w >= ImageSize && 0 <= y && y + ImageSize <= h
    ensures forall c :: c in CropRow(base, y, w, h, labels) ==>
      && 0 <= c.x && c.x + ImageSize <= w && 0 <= c.y && c.y + ImageSize <= h
      && c.name == CropName(base, c.x, c.y)
  {
    var row := CropRow(base, y, w, h, labels);
    forall c | c in row
      ensures 0 <= c.x && c.x + ImageSize <= w && c.y == y && c.name == CropName(base, c.x, c.y)
    {
      var k :| 0 <= k < |row| && row[k] == c;
      assert Origins(w)[k] in Origins(w);
    }
  }

  /**
   * Every crop of an image at least 640 pixels on both sides lies inside it, and
   * is named after its own origin.
   */
  lemma {:induction false} CropsInside(base: string, rows: nat, w: int, h: int, labels: seq<Label>)
    requires w >= ImageSize && h >= ImageSize && rows <= Count(h)
    ensures forall c :: c in CropsUpTo(base, rows, w, h, labels) ==>
      && 0 <= c.x && c.x + ImageSize <= w && 0 <= c.y && c.y + ImageSize <= h
      && c.name == CropName(base, c.x, c.y)
    decreases rows
  {
    if rows > 0 {
      CropsInside(base, rows - 1, w, h, labels);
      CropRowInside(base, Origins(h)[rows - 1], w, h, labels);
    }
  }

  /** On a 1180-pixel-wide image the second and third crop of every row have the same name. */
  lemma RepeatedNameExample(base: string, y: int, h: int, labels: seq<Label>)
    ensures CropRow(base, y, 1180, h, labels)[1].name == CropRow(base, y, 1180, h, labels)[2].name
  {
    RepeatedOriginExample();
  }
}
