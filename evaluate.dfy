/**
 * Scoring detected tree centres against ground truth: each detection is paired
 * with its nearest ground-truth point when that lies strictly closer than the
 * distance threshold, and precision, recall and the mean squared error of the
 * pairs are computed from the outcome.
 */
module Evaluate {
  import opened Base

  /**
   * A point in image coordinates, as loaded from the JSON files: both files hold
   * the integer centres `calculate_cluster_centers` writes.
   */
  datatype Coord = Coord(x: int, y: int)

  // ---------------------------------------------------------------- loading

  /**
   * `load_coordinates_from_json` after the JSON has been read: every entry is cut
   * down to its first two components; an entry with fewer raises IndexError.
   */
  function LoadCoordinates(data: seq<seq<int>>): (r: Result<seq<Coord>>)
    ensures r.Err? <==> exists k :: 0 <= k < |data| && |data[k]| < 2
    ensures r.Err? ==> r.error == IndexError
    ensures r.Ok? ==>
      && |r.value| == |data|
      && forall k :: 0 <= k < |data| ==> r.value[k] == Coord(data[k][0], data[k][1])
  {
    if |data| == 0 then Ok([])
    else
      var last := data[|data| - 1];
      var front :- LoadCoordinates(data[..|data| - 1]);
      if |last| < 2 then Err(IndexError) else Ok(front + [Coord(last[0], last[1])])
  }

  /** Writing points out as `[x, y]` pairs and loading them back gives the same points. */
  lemma LoadDumped(coords: seq<Coord>)
    ensures LoadCoordinates(seq(|coords|, k requires 0 <= k < |coords| => [coords[k].x, coords[k].y])) == Ok(coords)
  {
    var data := seq(|coords|, k requires 0 <= k < |coords| => [coords[k].x, coords[k].y]);
    assert forall k :: 0 <= k < |data| ==> |data[k]| == 2;
    var r := LoadCoordinates(data);
    assert r.Ok?;
    assert forall k :: 0 <= k < |coords| ==> r.value[k] == Coord(coords[k].x, coords[k].y) == coords[k];
    assert r.value == coords;
  }

  // ---------------------------------------------------------------- nearest ground-truth point

  /** The squared Euclidean distance. */
  function SqDist(a: Coord, b: Coord): int
  {
    (a.x - b.x) * (a.x - b.x) + (a.y - b.y) * (a.y - b.y)
  }

  /**
   * The index of a ground-truth point nearest to `p`, the first one on a tie: the
   * answer of the KD-tree query.
   */
  function Nearest(gt: seq<Coord>, p: Coord): (r: nat)
    requires |gt| > 0
    ensures r < |gt|
    ensures forall k :: 0 <= k < |gt| ==> SqDist(gt[r], p) <= SqDist(gt[k], p)
    ensures forall k :: 0 <= k < r ==> SqDist(gt[k], p) > SqDist(gt[r], p)
  {
    if |gt| == 1 then 0
    else
      var r := Nearest(gt[..|gt| - 1], p);
      if SqDist(gt[|gt| - 1], p) < SqDist(gt[r], p) then |gt| - 1 else r
  }

  /**
   * `distance < max_distance` for the nearest ground-truth point: as distances are
   * never negative, this is a positive threshold above the distance, compared here
   * on squares.
   */
  predicate Close(gt: seq<Coord>, p: Coord, maxDistance: real)
  {
    |gt| > 0 && maxDistance > 0.0 && (SqDist(gt[Nearest(gt, p)], p) as real) < maxDistance * maxDistance
  }

  /** A detection is matched iff some ground-truth point lies strictly within the threshold. */
  lemma CloseIffSomeWithin(gt: seq<Coord>, p: Coord, maxDistance: real)
    ensures Close(gt, p, maxDistance) <==>
      maxDistance > 0.0 && exists k :: 0 <= k < |gt| && (SqDist(gt[k], p) as real) < maxDistance * maxDistance
  {
    if maxDistance > 0.0 && exists k :: 0 <= k < |gt| && (SqDist(gt[k], p) as real) < maxDistance * maxDistance {
      var k :| 0 <= k < |gt| && (SqDist(gt[k], p) as real) < maxDistance * maxDistance;
      assert SqDist(gt[Nearest(gt, p)], p) <= SqDist(gt[k], p);
    }
  }

  function CloseTo(gt: seq<Coord>, maxDistance: real): Coord -> bool
  {
    p => Close(gt, p, maxDistance)
  }

  function FarFrom(gt: seq<Coord>, maxDistance: real): Coord -> bool
  {
    p => !Close(gt, p, maxDistance)
  }

  // ---------------------------------------------------------------- association

  /** The three lists the association returns. */
  datatype Association = Association(
    matches: seq<(Coord, Coord)>, falsePositives: seq<Coord>, falseNegatives: seq<Coord>)

  /** `list.remove(x)` guarded by `x in list`: the first entry equal to `x` goes, if any. */
  function RemoveFirst(s: seq<Coord>, x: Coord): (r: seq<Coord>)
    ensures x in s ==> |r| == |s| - 1
    ensures x !in s ==> r == s
    ensures multiset(r) == multiset(s) - multiset{x}
  {
    if |s| == 0 then []
    else
      assert s == [s[0]] + s[1..];
      if s[0] == x then s[1..] else [s[0]] + RemoveFirst(s[1..], x)
  }

  /**
   * One turn of the loop: a matched detection is paired with its nearest
   * ground-truth point, which leaves the false negatives once if it is still
   * there; an unmatched one is a false positive.
   */
  function Step(a: Association, d: Coord, gt: seq<Coord>, maxDistance: real): Association
  {
    if Close(gt, d, maxDistance) then
      var g := gt[Nearest(gt, d)];
      Association(a.matches + [(d, g)], a.falsePositives, RemoveFirst(a.falseNegatives, g))
    else Association(a.matches, a.falsePositives + [d], a.falseNegatives)
  }

  /** The association after the given detections, taken one at a time. */
  function Associate(detections: seq<Coord>, gt: seq<Coord>, maxDistance: real): Association
  {
    if |detections| == 0 then Association([], [], gt)
    else Step(Associate(detections[..|detections| - 1], gt, maxDistance), detections[|detections| - 1], gt, maxDistance)
  }

  lemma AssociateStep(detections: seq<Coord>, i: nat, gt: seq<Coord>, maxDistance: real)
    requires i < |detections|
    ensures Associate(detections[..i + 1], gt, maxDistance) ==
      Step(Associate(detections[..i], gt, maxDistance), detections[i], gt, maxDistance)
  {
    assert detections[..i + 1][..i] == detections[..i];
  }

  /**
   * `associate_detections_with_ground_truth` on loaded coordinates. The KD-tree
   * is built once and never updated, so one ground-truth point may be the partner
   * of several detections.
   */
  method AssociateDetections(detections: seq<Coord>, groundTruth: seq<Coord>, maxDistance: real)
    returns (a: Association)
    requires |groundTruth| > 0
    ensures a == Associate(detections, groundTruth, maxDistance)
  {
    var matches: seq<(Coord, Coord)> := [];
    var falsePositives: seq<Coord> := [];
    var falseNegatives := groundTruth;
    var i := 0;
    while i < |detections|
      invariant 0 <= i <= |detections|
      invariant Association(matches, falsePositives, falseNegatives) == Associate(detections[..i], groundTruth, maxDistance)
    {
      var detection := detections[i];
      AssociateStep(detections, i, groundTruth, maxDistance);
      var index := Nearest(groundTruth, detection);
      if maxDistance > 0.0 && (SqDist(groundTruth[index], detection) as real) < maxDistance * maxDistance {
        var partner := groundTruth[index];
        matches := matches + [(detection, partner)];
        if partner in falseNegatives {
          falseNegatives := RemoveFirst(falseNegatives, partner);
        }
      } else {
        falsePositives := falsePositives + [detection];
      }
      i := i + 1;
    }
    assert detections[..i] == detections;
    return Association(matches, falsePositives, falseNegatives);
  }

  /** The detections of the matched pairs, in order. */
  function Detected(matches: seq<(Coord, Coord)>): (r: seq<Coord>)
    ensures |r| == |matches|
  {
    if |matches| == 0 then [] else Detected(matches[..|matches| - 1]) + [matches[|matches| - 1].0]
  }

  /** The ground-truth partners of the matched pairs, in order. */
  function Partners(matches: seq<(Coord, Coord)>): (r: seq<Coord>)
    ensures |r| == |matches|
  {
    if |matches| == 0 then [] else Partners(matches[..|matches| - 1]) + [matches[|matches| - 1].1]
  }

  lemma PartnersSnoc(matches: seq<(Coord, Coord)>, pair: (Coord, Coord))
    ensures Detected(matches + [pair]) == Detected(matches) + [pair.0]
    ensures Partners(matches + [pair]) == Partners(matches) + [pair.1]
  {
    assert (matches + [pair])[..|matches|] == matches;
  }

  /** Every detection lands in exactly one of the matches and the false positives. */
  lemma {:induction false} AssociationSizes(detections: seq<Coord>, gt: seq<Coord>, maxDistance: real)
    ensures var a := Associate(detections, gt, maxDistance);
      |a.matches| + |a.falsePositives| == |detections|
  {
    if |detections| > 0 {
      AssociationSizes(detections[..|detections| - 1], gt, maxDistance);
    }
  }

  /**
   * In input order, the matched detections are those with a ground-truth point
   * within the threshold and the false positives are the rest.
   */
  lemma {:induction false} AssociationSplit(detections: seq<Coord>, gt: seq<Coord>, maxDistance: real)
    ensures var a := Associate(detections, gt, maxDistance);
      && Detected(a.matches) == Filter(detections, CloseTo(gt, maxDistance))
      && a.falsePositives == Filter(detections, FarFrom(gt, maxDistance))
  {
    if |detections| > 0 {
      var front := detections[..|detections| - 1];
      var d := detections[|detections| - 1];
      AssociationSplit(front, gt, maxDistance);
      var a := Associate(front, gt, maxDistance);
      assert detections == front + [d];
      FilterSnoc(front, d, CloseTo(gt, maxDistance));
      FilterSnoc(front, d, FarFrom(gt, maxDistance));
      if Close(gt, d, maxDistance) {
        PartnersSnoc(a.matches, (d, gt[Nearest(gt, d)]));
      }
    }
  }

  /** The pair is a detection within the threshold and a ground-truth point nearest to it. */
  predicate NearestPair(gt: seq<Coord>, maxDistance: real, pair: (Coord, Coord))
  {
    Close(gt, pair.0, maxDistance) && pair.1 == gt[Nearest(gt, pair.0)]
  }

  /** Every pair is a detection within the threshold with a ground-truth point nearest to it. */
  predicate AllNearest(gt: seq<Coord>, maxDistance: real, matches: seq<(Coord, Coord)>)
  {
    forall k :: 0 <= k < |matches| ==> NearestPair(gt, maxDistance, matches[k])
  }

  /** Each match pairs a detection within the threshold with a ground-truth point nearest to it. */
  lemma {:induction false} MatchesAreNearest(detections: seq<Coord>, gt: seq<Coord>, maxDistance: real)
    ensures AllNearest(gt, maxDistance, Associate(detections, gt, maxDistance).matches)
    decreases |detections|
  {
    if |detections| > 0 {
      var front := detections[..|detections| - 1];
      var d := detections[|detections| - 1];
      MatchesAreNearest(front, gt, maxDistance);
      var a := Associate(front, gt, maxDistance);
      if Close(gt, d, maxDistance) {
        AllNearestSnoc(a.matches, (d, gt[Nearest(gt, d)]), gt, maxDistance);
      }
    }
  }

  lemma AllNearestSnoc(matches: seq<(Coord, Coord)>, pair: (Coord, Coord), gt: seq<Coord>, maxDistance: real)
    requires AllNearest(gt, maxDistance, matches) && NearestPair(gt, maxDistance, pair)
    ensures AllNearest(gt, maxDistance, matches + [pair])
  {
    forall k | 0 <= k < |matches| + 1
      ensures NearestPair(gt, maxDistance, (matches + [pair])[k])
    {
      if k < |matches| {
        assert (matches + [pair])[k] == matches[k];
      }
    }
  }

  /**
   * The false negatives are the ground truth less one copy of each matched partner,
   * as far as copies remain; so at least |ground truth| - |matches| of them remain.
   */
  lemma {:induction false} FalseNegativesRemaining(detections: seq<Coord>, gt: seq<Coord>, maxDistance: real)
    ensures var a := Associate(detections, gt, maxDistance);
      && multiset(a.falseNegatives) == multiset(gt) - multiset(Partners(a.matches))
      && |a.falseNegatives| + |a.matches| >= |gt|
  {
    if |detections| > 0 {
      var front := detections[..|detections| - 1];
      var d := detections[|detections| - 1];
      FalseNegativesRemaining(front, gt, maxDistance);
      var a := Associate(front, gt, maxDistance);
      if Close(gt, d, maxDistance) {
        var g := gt[Nearest(gt, d)];
        PartnersSnoc(a.matches, (d, g));
        assert multiset(Partners(a.matches) + [g]) == multiset(Partners(a.matches)) + multiset{g};
      }
    }
  }

  /** The false negatives keep the ground truth's order. */
  lemma {:induction false} FalseNegativesInOrder(detections: seq<Coord>, gt: seq<Coord>, maxDistance: real)
    ensures Subsequence(Associate(detections, gt, maxDistance).falseNegatives, gt)
  {
    if |detections| == 0 {
      SubsequenceReflexive(gt);
    } else {
      var front := detections[..|detections| - 1];
      var d := detections[|detections| - 1];
      FalseNegativesInOrder(front, gt, maxDistance);
      var fn := Associate(front, gt, maxDistance).falseNegatives;
      if Close(gt, d, maxDistance) {
        var g := gt[Nearest(gt, d)];
        RemoveFirstSubsequence(fn, g);
        SubsequenceTransitive(RemoveFirst(fn, g), fn, gt);
      }
    }
  }

  /** `a` is `b` with some entries left out, the rest kept in order. */
  predicate Subsequence(a: seq<Coord>, b: seq<Coord>)
    decreases |b|
  {
    |a| == 0 || (|b| > 0 && ((a[0] == b[0] && Subsequence(a[1..], b[1..])) || Subsequence(a, b[1..])))
  }

  lemma {:induction false} SubsequenceReflexive(s: seq<Coord>)
    ensures Subsequence(s, s)
    decreases |s|
  {
    if |s| > 0 {
      SubsequenceReflexive(s[1..]);
    }
  }

  lemma {:induction false} RemoveFirstSubsequence(s: seq<Coord>, x: Coord)
    ensures Subsequence(RemoveFirst(s, x), s)
    decreases |s|
  {
    if |s| > 0 {
      if s[0] == x {
        SubsequenceReflexive(s[1..]);
        SubsequenceDropFront(s[1..], s);
      } else {
        RemoveFirstSubsequence(s[1..], x);
        var r := RemoveFirst(s, x);
        assert r[0] == s[0] && r[1..] == RemoveFirst(s[1..], x);
      }
    }
  }

  /** A subsequence of the tail is a subsequence of the whole. */
  lemma SubsequenceDropFront(a: seq<Coord>, s: seq<Coord>)
    requires |s| > 0 && Subsequence(a, s[1..])
    ensures Subsequence(a, s)
  {
  }

  lemma {:induction false} SubsequenceTransitive(a: seq<Coord>, b: seq<Coord>, c: seq<Coord>)
    requires Subsequence(a, b) && Subsequence(b, c)
    ensures Subsequence(a, c)
    decreases |c|, |b|
  {
    if |a| > 0 {
      // b and c are non-empty here
      if b[0] == c[0] && Subsequence(b[1..], c[1..]) {
        if a[0] == b[0] && Subsequence(a[1..], b[1..]) {
          SubsequenceTransitive(a[1..], b[1..], c[1..]);
        } else {
          SubsequenceTransitive(a, b[1..], c[1..]);
        }
      } else {
        SubsequenceTransitive(a, b, c[1..]);
      }
    }
  }

  /** Two detections, both within the threshold of their nearest points. */
  lemma AssociateBothMatch(d0: Coord, d1: Coord, gt: seq<Coord>, maxDistance: real)
    requires Close(gt, d0, maxDistance) && Close(gt, d1, maxDistance)
    ensures var g0, g1 := gt[Nearest(gt, d0)], gt[Nearest(gt, d1)];
      Associate([d0, d1], gt, maxDistance) ==
        Association([(d0, g0), (d1, g1)], [], RemoveFirst(RemoveFirst(gt, g0), g1))
  {
    var dets := [d0, d1];
    assert dets[..0] == [] && dets[..2] == dets;
    AssociateStep(dets, 0, gt, maxDistance);
    AssociateStep(dets, 1, gt, maxDistance);
  }

  /** The single ground-truth point (0, 0). */
  const LoneTruth: seq<Coord> := [Coord(0, 0)]

  /** Two detections at distance 1 from (0, 0). */
  const TwinDetections: seq<Coord> := [Coord(1, 0), Coord(0, 1)]

  /** Both detections are within distance 2 of (0, 0). */
  lemma TwinMatching()
    ensures Nearest(LoneTruth, TwinDetections[0]) == 0 && Nearest(LoneTruth, TwinDetections[1]) == 0
    ensures Close(LoneTruth, TwinDetections[0], 2.0) && Close(LoneTruth, TwinDetections[1], 2.0)
  {
  }

  /**
   * One ground-truth point can be the partner of several detections: with the
   * single point (0, 0) and threshold 2, both (1, 0) and (0, 1) are matched to it.
   */
  lemma SharedPartnerExample()
    ensures Associate(TwinDetections, LoneTruth, 2.0) ==
      Association([(Coord(1, 0), Coord(0, 0)), (Coord(0, 1), Coord(0, 0))], [], [])
  {
    var gt, dets := LoneTruth, TwinDetections;
    TwinMatching();
    AssociateBothMatch(dets[0], dets[1], gt, 2.0);
    assert dets == [dets[0], dets[1]];
    assert RemoveFirst(RemoveFirst(gt, gt[0]), gt[0]) == [] by {
      assert RemoveFirst(gt, gt[0]) == [];
    }
  }

  // ---------------------------------------------------------------- metrics

  /** The scores; `rmseSquared` is the square of the reported RMSE, None without matches. */
  datatype Metrics = Metrics(precision: real, recall: real, rmseSquared: Option<real>)

  /** `n / d if d > 0 else 0` */
  function Ratio(n: nat, d: nat): real
  {
    if d > 0 then n as real / d as real else 0.0
  }

  /** The summed squared per-axis differences of the matched pairs. */
  function SumSquares(matches: seq<(Coord, Coord)>): (r: int)
    ensures r >= 0
  {
    if |matches| == 0 then 0
    else
      var last := matches[|matches| - 1];
      SqDistZero(last.0, last.1);
      SumSquares(matches[..|matches| - 1]) + SqDist(last.0, last.1)
  }

  /**
   * `calculate_metrics`: precision TP/(TP+FP) and recall TP/(TP+FN), each 0 when
   * its denominator is 0, and the mean of the 2·TP squared per-axis differences.
   */
  function CalculateMetrics(a: Association): (r: Metrics)
    ensures 0.0 <= r.precision <= 1.0 && 0.0 <= r.recall <= 1.0
    ensures r.precision == 1.0 <==> |a.matches| > 0 && |a.falsePositives| == 0
    ensures r.recall == 1.0 <==> |a.matches| > 0 && |a.falseNegatives| == 0
    ensures r.rmseSquared.None? <==> |a.matches| == 0
    ensures r.rmseSquared.Some? ==> r.rmseSquared.value >= 0.0
  {
    var tp := |a.matches|;
    var precision := Ratio(tp, tp + |a.falsePositives|);
    var recall := Ratio(tp, tp + |a.falseNegatives|);
    RatioBounds(tp, |a.falsePositives|);
    RatioBounds(tp, |a.falseNegatives|);
    var rmseSquared := if tp > 0 then Some(SumSquares(a.matches) as real / (2 * tp) as real) else None;
    Metrics(precision, recall, rmseSquared)
  }

  /** TP/(TP+X) lies in [0, 1] and is 1 exactly when TP > 0 and X = 0. */
  lemma RatioBounds(tp: nat, other: nat)
    ensures 0.0 <= Ratio(tp, tp + other) <= 1.0
    ensures Ratio(tp, tp + other) == 1.0 <==> tp > 0 && other == 0
  {
    if tp + other > 0 {
      var n, d := tp as real, (tp + other) as real;
      var r := Ratio(tp, tp + other);
      assert r == n / d;
      assert r * d == n;
      if r == 1.0 {
        assert d == n;
      }
      if tp > 0 && other == 0 {
        assert d == n;
      }
    }
  }

  /** The error is 0 exactly when every matched detection sits on its partner. */
  lemma {:induction false} SumSquaresZero(matches: seq<(Coord, Coord)>)
    ensures SumSquares(matches) == 0 <==> forall k :: 0 <= k < |matches| ==> matches[k].0 == matches[k].1
  {
    if |matches| > 0 {
      var front := matches[..|matches| - 1];
      var last := matches[|matches| - 1];
      SumSquaresZero(front);
      SqDistZero(last.0, last.1);
      if forall k :: 0 <= k < |matches| ==> matches[k].0 == matches[k].1 {
        assert forall k :: 0 <= k < |front| ==> front[k] == matches[k];
      }
      if SumSquares(matches) == 0 {
        forall k | 0 <= k < |matches| ensures matches[k].0 == matches[k].1 {
          if k < |front| {
            assert front[k] == matches[k];
          }
        }
      }
    }
  }

  lemma SqDistZero(a: Coord, b: Coord)
    ensures SqDist(a, b) >= 0
    ensures SqDist(a, b) == 0 <==> a == b
  {
    Square(a.x - b.x);
    Square(a.y - b.y);
  }

  lemma Square(v: int)
    ensures v * v >= 0
    ensures v != 0 ==> v * v > 0
  {
  }

  /** A single pair (10, 10) / (13, 14) has squared error (9 + 16) / 2 = 12.5. */
  lemma RmseExample()
    ensures CalculateMetrics(Association([(Coord(10, 10), Coord(13, 14))], [], [])).rmseSquared == Some(12.5)
  {
    var m := [(Coord(10, 10), Coord(13, 14))];
    assert m[..0] == [];
    assert SumSquares(m) == 25;
  }

  /** Ground truth (100, 100), (500, 500) of the worked example. */
  const ExampleTruth: seq<Coord> := [Coord(100, 100), Coord(500, 500)]

  /** Detections (102, 101), (700, 700) of the worked example. */
  const ExampleDetections: seq<Coord> := [Coord(102, 101), Coord(700, 700)]

  /** With threshold 20, (102, 101) is 5^(1/2) from (100, 100); (700, 700) is far from both. */
  lemma ExampleMatching()
    ensures Close(ExampleTruth, ExampleDetections[0], 20.0)
    ensures Nearest(ExampleTruth, ExampleDetections[0]) == 0
    ensures !Close(ExampleTruth, ExampleDetections[1], 20.0)
  {
    var gt, dets := ExampleTruth, ExampleDetections;
    assert gt[..1] == [gt[0]];
    assert SqDist(gt[0], dets[0]) == 5 && SqDist(gt[1], dets[0]) == 317605;
    assert SqDist(gt[0], dets[1]) == 720000 && SqDist(gt[1], dets[1]) == 80000;
  }

  /** Two detections, the first within the threshold of its nearest point and the second not. */
  lemma AssociateMatchThenMiss(d0: Coord, d1: Coord, gt: seq<Coord>, maxDistance: real)
    requires Close(gt, d0, maxDistance) && !Close(gt, d1, maxDistance)
    ensures Associate([d0, d1], gt, maxDistance) ==
      Association([(d0, gt[Nearest(gt, d0)])], [d1], RemoveFirst(gt, gt[Nearest(gt, d0)]))
  {
    var dets := [d0, d1];
    assert dets[..0] == [] && dets[..2] == dets;
    AssociateStep(dets, 0, gt, maxDistance);
    AssociateStep(dets, 1, gt, maxDistance);
  }

  /**
   * The worked example: one match, one false positive, one false negative.
   */
  lemma AssociationExample()
    ensures Associate(ExampleDetections, ExampleTruth, 20.0) ==
      Association([(Coord(102, 101), Coord(100, 100))], [Coord(700, 700)], [Coord(500, 500)])
  {
    var gt, dets := ExampleTruth, ExampleDetections;
    ExampleMatching();
    AssociateMatchThenMiss(dets[0], dets[1], gt, 20.0);
    assert dets == [dets[0], dets[1]];
    assert RemoveFirst(gt, gt[0]) == [gt[1]] by {
      assert gt[1..] == [gt[1]];
    }
  }

  /** One match against one false positive and one false negative: precision and recall 0.5. */
  lemma MetricsExample()
    ensures var m := CalculateMetrics(
      Association([(Coord(102, 101), Coord(100, 100))], [Coord(700, 700)], [Coord(500, 500)]));
      m.precision == 0.5 && m.recall == 0.5
  {
  }
}
