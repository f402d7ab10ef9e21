/**
 * Post-processing of the detector's output over the crops: detections are
 * grouped by the image their crop was cut from, and shifted back into that
 * image's pixel frame by the crop origin written in the crop's name.
 */
module PostprocessDetections {
  import opened Base
  import opened Text
  import TrainingCrop
  import CropImages

  /** One detection as the detector writes it, found in the crop named `image`. */
  datatype Detection = Detection(image: string, xCenter: real, yCenter: real,
                                 width: real, height: real, confidence: real, cls: int)

  /** A detection moved to the original image, with a reference to its crop. */
  datatype Remapped = Remapped(image: string, originalCrop: string, xCenter: real, yCenter: real,
                               width: real, height: real, confidence: real, cls: int)

  // ---------------------------------------------------------------- level keys

  /** `"_".join(name.split("_")[:-2])`: the name without its last two `_`-tokens. */
  function LevelKey(cropName: string): string
  {
    var parts := Split(cropName, '_');
    Join(if |parts| >= 2 then parts[..|parts| - 2] else [], '_')
  }

  /** A name with fewer than three `_`-tokens has the empty key. */
  lemma ShortNameKey(a: string, b: string)
    requires '_' !in a && '_' !in b
    ensures LevelKey(a) == "" && LevelKey(a + "_" + b) == ""
  {
    SplitNoSep(a, '_');
    SplitNoSep(b, '_');
    assert a + "_" + b == a + ['_'] + b;
    SplitConcat(a, b, '_');
  }

  /** The detection's crop has level key k. */
  function HasKey(k: string): Detection -> bool
  {
    (d: Detection) => LevelKey(d.image) == k
  }

  /** The distinct level keys of the detections, in order of first appearance. */
  function Keys(detections: seq<Detection>): seq<string>
  {
    if |detections| == 0 then []
    else
      var init := detections[..|detections| - 1];
      var k := LevelKey(detections[|detections| - 1].image);
      if k in Keys(init) then Keys(init) else Keys(init) + [k]
  }

  /** The keys are exactly the level keys of the detections, each listed once. */
  lemma {:induction false} KeysListed(detections: seq<Detection>)
    ensures forall k :: k in Keys(detections) <==> exists i :: 0 <= i < |detections| && LevelKey(detections[i].image) == k
    ensures forall i, j :: 0 <= i < j < |Keys(detections)| ==> Keys(detections)[i] != Keys(detections)[j]
    decreases |detections|
  {
    if |detections| > 0 {
      var init := detections[..|detections| - 1];
      KeysListed(init);
      assert forall i :: 0 <= i < |init| ==> init[i] == detections[i];
    }
  }

  /**
   * `split_detections_by_level`, before the groups are written out: each
   * detection is appended to the list of its level key. The keys come out in the
   * order the dictionary keeps them, first appearance first, and each key's list
   * holds exactly the detections with that key, in input order.
   */
  method SplitDetectionsByLevel(detections: seq<Detection>) returns (groups: map<string, seq<Detection>>, order: seq<string>)
    ensures order == Keys(detections)
    ensures forall k :: k in groups <==> k in order
    ensures forall k :: k in groups ==> groups[k] == Filter(detections, HasKey(k))
  {
    groups := map[];
    order := [];
    for i := 0 to |detections|
      invariant Grouped(detections[..i], groups, order)
    {
      var d := detections[i];
      assert detections[..i + 1] == detections[..i] + [d];
      var key := LevelKey(d.image);
      if key !in groups {
        NewKeyStep(detections[..i], d, groups, order);
        groups := groups[key := []];
        order := order + [key];
      } else {
        KnownKeyStep(detections[..i], d, groups, order);
      }
      groups := groups[key := groups[key] + [d]];
    }
    assert detections[..|detections|] == detections;
  }

  /** The groups and key order after the detections have been distributed. */
  ghost predicate Grouped(detections: seq<Detection>, groups: map<string, seq<Detection>>, order: seq<string>)
  {
    && order == Keys(detections)
    && (forall k :: k in groups <==> k in order)
    && forall k :: k in groups ==> groups[k] == Filter(detections, HasKey(k))
  }

  /** A detection whose key already has a list is appended to it. */
  lemma KnownKeyStep(prefix: seq<Detection>, d: Detection, groups: map<string, seq<Detection>>, order: seq<string>)
    requires Grouped(prefix, groups, order) && LevelKey(d.image) in groups
    ensures Grouped(prefix + [d], groups[LevelKey(d.image) := groups[LevelKey(d.image)] + [d]], order)
  {
    var key := LevelKey(d.image);
    var g' := groups[key := groups[key] + [d]];
    assert (prefix + [d])[..|prefix|] == prefix;
    assert Keys(prefix + [d]) == order;
    assert forall k :: k in g' <==> k in order;
    GroupAppend(prefix, d, groups);
  }

  /** A detection with a new key opens an empty list, appended to the key order, and joins it. */
  lemma NewKeyStep(prefix: seq<Detection>, d: Detection, groups: map<string, seq<Detection>>, order: seq<string>)
    requires Grouped(prefix, groups, order) && LevelKey(d.image) !in groups
    ensures var key := LevelKey(d.image);
      Grouped(prefix + [d], groups[key := []][key := groups[key := []][key] + [d]], order + [key])
  {
    var key := LevelKey(d.image);
    var g := groups[key := []];
    assert (prefix + [d])[..|prefix|] == prefix;
    assert Keys(prefix + [d]) == order + [key];
    KeyAbsent(prefix, key);
    GroupAppend(prefix, d, g);
    var g' := g[key := g[key] + [d]];
    assert forall k :: k in g' <==> k in order + [key];
  }

  /** Appending a detection to its key's list, every list filtering the prefix by its own key. */
  lemma GroupAppend(prefix: seq<Detection>, d: Detection, groups: map<string, seq<Detection>>)
    requires LevelKey(d.image) in groups
    requires forall k :: k in groups ==> groups[k] == Filter(prefix, HasKey(k))
    ensures var key := LevelKey(d.image);
      forall k :: k in groups[key := groups[key] + [d]] ==>
        groups[key := groups[key] + [d]][k] == Filter(prefix + [d], HasKey(k))
  {
    var key := LevelKey(d.image);
    var g := groups[key := groups[key] + [d]];
    forall k | k in g
      ensures g[k] == Filter(prefix + [d], HasKey(k))
    {
      FilterSnoc(prefix, d, HasKey(k));
    }
  }

  /** A key no detection has selects nothing. */
  lemma KeyAbsent(detections: seq<Detection>, key: string)
    requires key !in Keys(detections)
    ensures Filter(detections, HasKey(key)) == []
  {
    KeysListed(detections);
    forall x | x in detections
      ensures !HasKey(key)(x)
    {
      var i :| 0 <= i < |detections| && detections[i] == x;
    }
    FilterNone(detections, HasKey(key));
  }

  /**
   * The groups partition the detections: every detection lies in the group of its
   * own key and in no other, and the group sizes add up to the number of detections.
   */
  lemma GroupsPartition(detections: seq<Detection>)
    ensures forall i :: 0 <= i < |detections| ==>
      LevelKey(detections[i].image) in Keys(detections)
      && detections[i] in Filter(detections, HasKey(LevelKey(detections[i].image)))
    ensures forall k, d :: k in Keys(detections) && d in Filter(detections, HasKey(k)) ==> LevelKey(d.image) == k
    ensures Total(detections, Keys(detections)) == |detections|
  {
    KeysListed(detections);
    forall i | 0 <= i < |detections|
      ensures LevelKey(detections[i].image) in Keys(detections)
      ensures detections[i] in Filter(detections, HasKey(LevelKey(detections[i].image)))
    {
      assert HasKey(LevelKey(detections[i].image))(detections[i]);
    }
    forall k, d | k in Keys(detections) && d in Filter(detections, HasKey(k))
      ensures LevelKey(d.image) == k
    {
      assert HasKey(k)(d);
    }
    GroupSizes(detections);
  }

  /** The summed sizes of the groups of the given keys. */
  function Total(detections: seq<Detection>, keys: seq<string>): nat
  {
    if |keys| == 0 then 0
    else Total(detections, keys[..|keys| - 1]) + |Filter(detections, HasKey(keys[|keys| - 1]))|
  }

  /** One more detection adds one to the total of distinct keys that include its key, and nothing otherwise. */
  lemma {:induction false} TotalSnoc(detections: seq<Detection>, d: Detection, keys: seq<string>)
    requires forall i, j :: 0 <= i < j < |keys| ==> keys[i] != keys[j]
    ensures Total(detections + [d], keys) == Total(detections, keys) + (if LevelKey(d.image) in keys then 1 else 0)
    decreases |keys|
  {
    if |keys| > 0 {
      var n := |keys| - 1;
      TotalSnoc(detections, d, keys[..n]);
      FilterSnoc(detections, d, HasKey(keys[n]));
      assert LevelKey(d.image) in keys <==> LevelKey(d.image) in keys[..n] || LevelKey(d.image) == keys[n] by {
        assert keys == keys[..n] + [keys[n]];
      }
    }
  }

  lemma {:induction false} GroupSizes(detections: seq<Detection>)
    ensures Total(detections, Keys(detections)) == |detections|
    decreases |detections|
  {
    if |detections| > 0 {
      var n := |detections| - 1;
      var init, d := detections[..n], detections[n];
      assert detections == init + [d];
      GroupSizes(init);
      var keys := Keys(init);
      KeysListed(init);
      TotalSnoc(init, d, keys);
      var key := LevelKey(d.image);
      if key !in keys {
        assert Keys(detections) == keys + [key];
        assert (keys + [key])[..|keys|] == keys;
        KeyAbsent(init, key);
        FilterSnoc(init, d, HasKey(key));
      }
    }
  }

  // ---------------------------------------------------------------- offsets

  /**
   * `int(parts[-2])` and `int(parts[-1].replace(".png", ""))` of the crop name
   * split on `_`: a name without `_` has no second-to-last token (IndexError);
   * a token that is not an integer raises ValueError.
   */
  function ParseOffsets(cropName: string): (r: Result<(int, int)>)
    ensures r == Err(IndexError) <==> '_' !in cropName
    ensures r.Err? ==> r.error == IndexError || r.error == ValueError
  {
    var parts := Split(cropName, '_');
    SplitSingle(cropName, '_');
    if |parts| < 2 then Err(IndexError)
    else
      var x := ParseInt(parts[|parts| - 2]);
      var y := ParseInt(ReplaceAll(parts[|parts| - 1], ".png", ""));
      if x.None? || y.None? then Err(ValueError) else Ok((x.value, y.value))
  }

  /**
   * A crop named `f'{base}_{x}_{y}.png'` parses back to the offsets (x, y) and to
   * the level key `base`, for every base and every pair of integers.
   */
  lemma CropNameRoundTrip(base: string, x: int, y: int)
    ensures ParseOffsets(TrainingCrop.CropName(base, x, y)) == Ok((x, y))
    ensures LevelKey(TrainingCrop.CropName(base, x, y)) == base
  {
    var sx, sy := IntToString(x), IntToString(y);
    NumberLacks(x, '_');
    NumberLacks(y, '_');
    NumberLacks(y, '.');
    assert '_' !in sy + ".png";
    TrainingCrop.LastTwoPieces(base, sx, sy + ".png");
    var name := TrainingCrop.CropName(base, x, y);
    assert name == base + "_" + sx + "_" + (sy + ".png");
    var parts := Split(name, '_');
    assert parts == Split(base, '_') + [sx, sy + ".png"];
    assert parts[..|parts| - 2] == Split(base, '_');
    JoinSplit(base, '_');
    ReplaceSuffix(sy, ".png", "");
    assert sy + "" == sy;
    ParseIntToString(x);
    ParseIntToString(y);
  }

  /** The tiles of the non-overlapping cutter, crop_<n>.png, carry no offsets and are refused with ValueError. */
  lemma TileNameRefused(n: int)
    ensures ParseOffsets(CropImages.TileName(n)) == Err(ValueError)
  {
    var sn := IntToString(n);
    NumberLacks(n, '_');
    SplitNoSep("crop", '_');
    assert '_' !in sn + ".png";
    SplitNoSep(sn + ".png", '_');
    assert CropImages.TileName(n) == "crop" + ['_'] + (sn + ".png");
    SplitConcat("crop", sn + ".png", '_');
    assert !IsDigit("crop"[0]);
    ParseIntNeedsDigit("crop");
  }

  // ---------------------------------------------------------------- remapping

  /**
   * The record written for one detection of `jsonFile`: the centre moved by the
   * offset, the size, confidence and class copied, the image named after the file
   * and the crop kept as a reference.
   */
  function Shift(jsonFile: string, d: Detection, offset: (int, int)): Remapped
  {
    Remapped(ReplaceAll(jsonFile, ".json", ""), d.image,
             d.xCenter + offset.0 as real, d.yCenter + offset.1 as real,
             d.width, d.height, d.confidence, d.cls)
  }

  /** Moving the centre back by the offset gives the detection as found in its crop. */
  function Unshift(r: Remapped, offset: (int, int)): Detection
  {
    Detection(r.originalCrop, r.xCenter - offset.0 as real, r.yCenter - offset.1 as real,
              r.width, r.height, r.confidence, r.cls)
  }

  /** Remapping loses nothing: it is undone by moving back by the same offset. */
  lemma ShiftUndone(jsonFile: string, d: Detection, offset: (int, int))
    ensures Unshift(Shift(jsonFile, d, offset), offset) == d
    ensures Shift(jsonFile, Unshift(Shift(jsonFile, d, offset), offset), offset) == Shift(jsonFile, d, offset)
  {
  }

  /** The group file written for key k, `f"{k}.json"`, names its remapped detections after k, when k has no dot. */
  lemma GroupFileImage(k: string, d: Detection, offset: (int, int))
    requires '.' !in k
    ensures Shift(k + ".json", d, offset).image == k
  {
    ReplaceSuffix(k, ".json", "");
    assert k + "" == k;
  }

  /** The index of the first detection whose crop name does not parse, or |detections|. */
  function FirstUnparsed(detections: seq<Detection>): (r: nat)
    ensures r <= |detections|
    ensures forall i :: 0 <= i < r ==> ParseOffsets(detections[i].image).Ok?
    ensures r < |detections| ==> ParseOffsets(detections[r].image).Err?
  {
    if |detections| == 0 then 0
    else if ParseOffsets(detections[0].image).Err? then 0
    else 1 + FirstUnparsed(detections[1..])
  }

  /**
   * The loop of `remap_detections_to_original` over the detections of one JSON
   * file. The first crop name that does not parse raises its error and nothing
   * is written; otherwise the output has the same length and order as the input,
   * each record being the detection shifted by its own crop's offset.
   */
  method RemapDetections(jsonFile: string, detections: seq<Detection>) returns (r: Result<seq<Remapped>>)
    ensures r.Err? <==> exists i :: 0 <= i < |detections| && ParseOffsets(detections[i].image).Err?
    ensures r.Err? ==> r.error == ParseOffsets(detections[FirstUnparsed(detections)].image).error
    ensures r.Ok? ==>
      && |r.value| == |detections|
      && forall i :: 0 <= i < |detections| ==>
           r.value[i] == Shift(jsonFile, detections[i], ParseOffsets(detections[i].image).value)
  {
    var remapped: seq<Remapped> := [];
    for i := 0 to |detections|
      invariant i <= FirstUnparsed(detections)
      invariant |remapped| == i
      invariant forall j :: 0 <= j < i ==>
        remapped[j] == Shift(jsonFile, detections[j], ParseOffsets(detections[j].image).value)
    {
      var offset := ParseOffsets(detections[i].image);
      if offset.Err? {
        return Err(offset.error);
      }
      remapped := remapped + [Shift(jsonFile, detections[i], offset.value)];
    }
    return Ok(remapped);
  }
}
