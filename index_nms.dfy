/**
 * The index-based NMS of the older detector code: boxes are rows
 * (x1, y1, x2, y2), areas use the "+1 pixel" convention, and the result is
 * the list of kept row indices.  A class-agnostic wrapper first picks each
 * row's class and drops rows whose class score is too low.
 */
module IndexNms {
  import opened Geometry
  import opened Sorting

  /** Area with the inclusive-pixel convention: (x2 - x1 + 1) * (y2 - y1 + 1). */
  function PixelArea(b: BBox): real
  {
    (b.x1 - b.x0 + 1.0) * (b.y1 - b.y0 + 1.0)
  }

  /** Intersection with the same convention, each side clamped at 0. */
  function PixelIntersection(a: BBox, b: BBox): (r: real)
    ensures r >= 0.0
  {
    var w := Max(0.0, Min(a.x1, b.x1) - Max(a.x0, b.x0) + 1.0);
    var h := Max(0.0, Min(a.y1, b.y1) - Max(a.y0, b.y0) + 1.0);
    MulMonotone(0.0, 0.0, w, h);
    w * h
  }

  /**
   * Candidate `b` stays after keeping `a` iff `ovr <= thr`; under IEEE
   * division a zero denominator gives NaN or an infinity, and neither
   * compares `<=` to a finite threshold.
   */
  predicate Survives(a: BBox, b: BBox, thr: real)
  {
    var inter := PixelIntersection(a, b);
    var den := PixelArea(a) + PixelArea(b) - inter;
    den != 0.0 && inter / den <= thr
  }

  /** The indices of `rest` that stay after keeping index `i`, in order. */
  function Remaining(i: nat, rest: seq<nat>, boxes: seq<BBox>, thr: real): (r: seq<nat>)
    requires i < |boxes| && forall k :: 0 <= k < |rest| ==> rest[k] < |boxes|
    ensures |r| <= |rest|
    ensures ValidIndices(r, |boxes|)
    ensures forall x :: x in r <==> x in rest && Survives(boxes[i], boxes[x], thr)
  {
    if |rest| == 0 then []
    else
      var tail := Remaining(i, rest[1..], boxes, thr);
      assert forall x :: x in rest <==> x == rest[0] || x in rest[1..];
      if Survives(boxes[i], boxes[rest[0]], thr) then [rest[0]] + tail else tail
  }

  predicate ValidIndices(order: seq<nat>, n: nat)
  {
    forall k :: 0 <= k < |order| ==> order[k] < n
  }

  /** The greedy loop as a recursive definition: keep the head, filter the rest, repeat. */
  function KeepFrom(order: seq<nat>, boxes: seq<BBox>, thr: real): (keep: seq<nat>)
    requires ValidIndices(order, |boxes|)
    ensures |keep| <= |order|
    ensures ValidIndices(keep, |boxes|)
    ensures forall x :: x in keep ==> x in order
    decreases |order|
  {
    if |order| == 0 then []
    else
      var rest := Remaining(order[0], order[1..], boxes, thr);
      assert forall x :: x in order[1..] ==> x in order;
      [order[0]] + KeepFrom(rest, boxes, thr)
  }

  /** n-1, n-2, ..., 0. */
  function Down(n: nat): (r: seq<nat>)
    ensures |r| == n && forall k :: 0 <= k < n ==> r[k] == n - 1 - k
  {
    if n == 0 then [] else [n - 1] + Down(n - 1)
  }

  function ScoreOf(scores: seq<real>): nat -> real
  {
    (i: nat) => if i < |scores| then scores[i] else 0.0
  }

  /**
   * Indices by descending score: an ascending argsort reversed, so among
   * equal scores the later index comes first.
   */
  function InitialOrder(scores: seq<real>): (order: seq<nat>)
    ensures |order| == |scores|
    ensures ValidIndices(order, |scores|)
  {
    var o := SortDesc<nat>(Down(|scores|), ScoreOf(scores));
    forall k | 0 <= k < |o| ensures o[k] < |scores| {
      assert o[k] in multiset(Down(|scores|));
    }
    o
  }

  function KeptIndices(boxes: seq<BBox>, scores: seq<real>, thr: real): seq<nat>
    requires |boxes| == |scores|
  {
    KeepFrom(InitialOrder(scores), boxes, thr)
  }

  /** The while loop over `order`: push its head, keep only the candidates that stay. */
  method Nms(boxes: seq<BBox>, scores: seq<real>, thr: real) returns (keep: seq<nat>)
    requires |boxes| == |scores|
    ensures keep == KeptIndices(boxes, scores, thr)
  {
    var order := InitialOrder(scores);
    keep := [];
    while |order| > 0
      invariant ValidIndices(order, |boxes|)
      invariant keep + KeepFrom(order, boxes, thr) == KeptIndices(boxes, scores, thr)
      decreases |order|
    {
      var i := order[0];
      keep := keep + [i];
      order := Remaining(i, order[1..], boxes, thr);
    }
  }

  // ---------------------------------------------------------------------------
  // Properties
  // ---------------------------------------------------------------------------

  lemma {:induction false} RemainingDistinct(i: nat, rest: seq<nat>, boxes: seq<BBox>, thr: real)
    requires i < |boxes| && ValidIndices(rest, |boxes|) && Distinct(rest)
    ensures Distinct(Remaining(i, rest, boxes, thr))
    decreases |rest|
  {
    if |rest| > 0 {
      assert Distinct(rest[1..]) by {
        forall a, b | 0 <= a < b < |rest[1..]| ensures rest[1..][a] != rest[1..][b] {
          assert rest[1..][a] == rest[a + 1] && rest[1..][b] == rest[b + 1];
        }
      }
      RemainingDistinct(i, rest[1..], boxes, thr);
      assert rest[0] !in rest[1..] by {
        forall k | 0 <= k < |rest[1..]| ensures rest[1..][k] != rest[0] {
          assert rest[1..][k] == rest[k + 1];
        }
      }
    }
  }

  /** Kept indices are distinct. */
  lemma {:induction false} KeepFromDistinct(order: seq<nat>, boxes: seq<BBox>, thr: real)
    requires ValidIndices(order, |boxes|) && Distinct(order)
    ensures Distinct(KeepFrom(order, boxes, thr))
    decreases |order|
  {
    if |order| > 0 {
      assert Distinct(order[1..]) by {
        forall a, b | 0 <= a < b < |order[1..]| ensures order[1..][a] != order[1..][b] {
          assert order[1..][a] == order[a + 1] && order[1..][b] == order[b + 1];
        }
      }
      var rest := Remaining(order[0], order[1..], boxes, thr);
      RemainingDistinct(order[0], order[1..], boxes, thr);
      KeepFromDistinct(rest, boxes, thr);
      assert order[0] !in order[1..] by {
        forall k | 0 <= k < |order[1..]| ensures order[1..][k] != order[0] {
          assert order[1..][k] == order[k + 1];
        }
      }
      var tail := KeepFrom(rest, boxes, thr);
      var keep := [order[0]] + tail;
      forall a, b | 0 <= a < b < |keep| ensures keep[a] != keep[b] {
        assert keep[b] == tail[b - 1];
        if a > 0 {
          assert keep[a] == tail[a - 1];
        }
      }
    }
  }

  /** Each index passes the overlap test against every index before it. */
  predicate Separated(keep: seq<nat>, boxes: seq<BBox>, thr: real)
    requires ValidIndices(keep, |boxes|)
  {
    forall a, b :: 0 <= a < b < |keep| ==> Survives(boxes[keep[a]], boxes[keep[b]], thr)
  }

  /** A kept index never fails the overlap test against an index kept after it. */
  lemma {:induction false} KeepFromSeparated(order: seq<nat>, boxes: seq<BBox>, thr: real)
    requires ValidIndices(order, |boxes|)
    ensures Separated(KeepFrom(order, boxes, thr), boxes, thr)
    decreases |order|
  {
    if |order| > 0 {
      var rest := Remaining(order[0], order[1..], boxes, thr);
      KeepFromSeparated(rest, boxes, thr);
      var tail := KeepFrom(rest, boxes, thr);
      var keep := [order[0]] + tail;
      forall a, b | 0 <= a < b < |keep| ensures Survives(boxes[keep[a]], boxes[keep[b]], thr) {
        assert keep[b] == tail[b - 1];
        assert keep[b] in rest;
        if a > 0 {
          assert keep[a] == tail[a - 1];
        }
      }
    }
  }

  /** Every index of the order is kept, or fails the overlap test against a kept index. */
  lemma {:induction false} KeepFromCovers(order: seq<nat>, boxes: seq<BBox>, thr: real)
    requires ValidIndices(order, |boxes|)
    ensures var keep := KeepFrom(order, boxes, thr);
      forall x :: x in order ==> x in keep || exists k :: k in keep && !Survives(boxes[k], boxes[x], thr)
    decreases |order|
  {
    if |order| > 0 {
      var rest := Remaining(order[0], order[1..], boxes, thr);
      KeepFromCovers(rest, boxes, thr);
      var keep := KeepFrom(order, boxes, thr);
      forall x | x in order ensures x in keep || exists k :: k in keep && !Survives(boxes[k], boxes[x], thr) {
        if x != order[0] {
          assert x in order[1..];
          if !Survives(boxes[order[0]], boxes[x], thr) {
            assert order[0] in keep;
          } else {
            assert x in rest;
          }
        }
      }
    }
  }

  /** Over an order sorted by descending score, the kept indices stay in that order. */
  lemma {:induction false} KeepFromSorted(order: seq<nat>, boxes: seq<BBox>, thr: real, key: nat -> real)
    requires ValidIndices(order, |boxes|) && SortedDesc(order, key)
    ensures SortedDesc(KeepFrom(order, boxes, thr), key)
    decreases |order|
  {
    if |order| > 0 {
      var rest := Remaining(order[0], order[1..], boxes, thr);
      SortedTail(order, key);
      RemainingSorted(order[0], order[1..], boxes, thr, key);
      KeepFromSorted(rest, boxes, thr, key);
      var tail := KeepFrom(rest, boxes, thr);
      forall z | z in tail ensures key(order[0]) >= key(z) {
        assert z in order[1..];
        assert z in order;
      }
      SortedCons(order[0], tail, key);
    }
  }

  lemma {:induction false} RemainingSorted(i: nat, rest: seq<nat>, boxes: seq<BBox>, thr: real, key: nat -> real)
    requires i < |boxes| && ValidIndices(rest, |boxes|)
    requires SortedDesc(rest, key)
    ensures SortedDesc(Remaining(i, rest, boxes, thr), key)
    decreases |rest|
  {
    if |rest| > 0 {
      SortedTail(rest, key);
      RemainingSorted(i, rest[1..], boxes, thr, key);
      var tail := Remaining(i, rest[1..], boxes, thr);
      if Survives(boxes[i], boxes[rest[0]], thr) {
        forall z | z in tail ensures key(rest[0]) >= key(z) {
          assert z in rest[1..];
          assert z in rest;
        }
        SortedCons(rest[0], tail, key);
      }
    }
  }


  lemma {:induction false} DownDistinct(n: nat)
    ensures Distinct(Down(n))
  {
  }

  /**
   * The kept indices of the detector's NMS: distinct row indices, in
   * non-increasing score order, the first one of maximal score, pairwise
   * passing the overlap test, and every other row removed by a kept one.
   */
  lemma KeptIndicesProperties(boxes: seq<BBox>, scores: seq<real>, thr: real)
    requires |boxes| == |scores|
    ensures var keep := KeptIndices(boxes, scores, thr);
      && Distinct(keep)
      && (forall k :: 0 <= k < |keep| ==> keep[k] < |boxes|)
      && SortedDesc(keep, ScoreOf(scores))
      && Separated(keep, boxes, thr)
      && (forall x :: 0 <= x < |boxes| ==>
            x in keep || exists k :: k in keep && !Survives(boxes[k], boxes[x], thr))
      && (|boxes| > 0 ==> |keep| > 0 && forall x :: 0 <= x < |scores| ==> scores[x] <= scores[keep[0]])
  {
    var order := InitialOrder(scores);
    InitialOrderFacts(scores);
    KeepFromDistinct(order, boxes, thr);
    KeepFromSorted(order, boxes, thr, ScoreOf(scores));
    KeepFromSeparated(order, boxes, thr);
    KeepFromCovers(order, boxes, thr);
  }

  /** The initial order lists every row once, by non-increasing score, starting with a best one. */
  lemma InitialOrderFacts(scores: seq<real>)
    ensures var order := InitialOrder(scores);
      && Distinct(order)
      && SortedDesc(order, ScoreOf(scores))
      && (forall x :: 0 <= x < |scores| ==> x in order)
      && (|scores| > 0 ==> forall x :: 0 <= x < |scores| ==> scores[x] <= scores[order[0]])
  {
    var order := InitialOrder(scores);
    DownDistinct(|scores|);
    SortDescDistinct(Down(|scores|), ScoreOf(scores));
    SortDescSorted(Down(|scores|), ScoreOf(scores));
    InitialOrderCovers(scores);
    if |scores| > 0 {
      InitialOrderFirstBest(scores);
    }
  }

  /** Every row index appears in the initial order. */
  lemma InitialOrderCovers(scores: seq<real>)
    ensures forall x :: 0 <= x < |scores| ==> x in InitialOrder(scores)
  {
    var order := InitialOrder(scores);
    forall x | 0 <= x < |scores| ensures x in order {
      assert Down(|scores|)[|scores| - 1 - x] == x;
      assert x in multiset(Down(|scores|));
      assert x in multiset(order);
    }
  }

  /** The first index of the initial order has a best score. */
  lemma InitialOrderFirstBest(scores: seq<real>)
    requires |scores| > 0
    ensures forall x :: 0 <= x < |scores| ==> scores[x] <= scores[InitialOrder(scores)[0]]
  {
    var order := InitialOrder(scores);
    var key := ScoreOf(scores);
    SortDescSorted(Down(|scores|), key);
    InitialOrderCovers(scores);
    SortedTail(order, key);
    forall x | 0 <= x < |scores| ensures scores[x] <= scores[order[0]] {
      assert key(order[0]) >= key(x);
    }
  }

  // ---------------------------------------------------------------------------
  // Class selection and score masking
  // ---------------------------------------------------------------------------

  /** The fold over a score row from (0, 0.0), replacing the best on a strictly larger score. */
  function ClassFold(row: seq<real>, i: nat, bestIdx: nat, best: real): nat
    requires i <= |row|
    decreases |row| - i
  {
    if i == |row| then bestIdx
    else if row[i] > best then ClassFold(row, i + 1, i, row[i])
    else ClassFold(row, i + 1, bestIdx, best)
  }

  function ClassIndex(row: seq<real>): nat
  {
    ClassFold(row, 0, 0, 0.0)
  }

  lemma {:induction false} ClassFoldSpec(row: seq<real>, i: nat, bestIdx: nat, best: real)
    requires i <= |row|
    requires forall j :: 0 <= j < i ==> row[j] <= best
    requires (bestIdx == 0 && best == 0.0)
          || (bestIdx < i && row[bestIdx] == best && best > 0.0 && forall j :: 0 <= j < bestIdx ==> row[j] < best)
    ensures var k := ClassFold(row, i, bestIdx, best);
      (k < |row| || k == 0)
      && ((forall j :: 0 <= j < |row| ==> row[j] <= 0.0) ==> k == 0)
      && ((exists j :: 0 <= j < |row| && row[j] > 0.0) ==>
            k < |row| && (forall j :: 0 <= j < |row| ==> row[j] <= row[k])
            && (forall j :: 0 <= j < k ==> row[j] < row[k]))
    decreases |row| - i
  {
    if i < |row| {
      if row[i] > best {
        ClassFoldSpec(row, i + 1, i, row[i]);
      } else {
        ClassFoldSpec(row, i + 1, bestIdx, best);
      }
    }
  }

  /**
   * The class of a row is its first maximal score when that is positive, and
   * class 0 when every score is at most 0.
   */
  lemma ClassIndexSpec(row: seq<real>)
    ensures var k := ClassIndex(row);
      (k < |row| || k == 0)
      && ((forall j :: 0 <= j < |row| ==> row[j] <= 0.0) ==> k == 0)
      && ((exists j :: 0 <= j < |row| && row[j] > 0.0) ==>
            k < |row| && (forall j :: 0 <= j < |row| ==> row[j] <= row[k])
            && (forall j :: 0 <= j < k ==> row[j] < row[k]))
  {
    ClassFoldSpec(row, 0, 0, 0.0);
  }

  /** One output row: the box, its class score and its class. */
  datatype Detection = Detection(bbox: BBox, score: real, cls: nat)

  /** Rows whose class score exceeds the threshold, in order, with that score and class. */
  function Valid(boxes: seq<BBox>, scores: seq<seq<real>>, scoreThr: real): (r: seq<Detection>)
    requires |boxes| == |scores|
    requires forall i :: 0 <= i < |scores| ==> |scores[i]| > 0
    ensures |r| <= |boxes|
    ensures forall k :: 0 <= k < |r| ==> r[k].score > scoreThr
  {
    if |boxes| == 0 then []
    else
      var rest := Valid(boxes[1..], scores[1..], scoreThr);
      var c := ClassIndex(scores[0]);
      ClassIndexSpec(scores[0]);
      if scores[0][c] > scoreThr then [Detection(boxes[0], scores[0][c], c)] + rest else rest
  }

  /** One row gives its detection exactly when its class score exceeds the threshold. */
  lemma ValidOne(b: BBox, row: seq<real>, scoreThr: real)
    requires |row| > 0
    ensures var c := ClassIndex(row);
      c < |row|
      && Valid([b], [row], scoreThr) == (if row[c] > scoreThr then [Detection(b, row[c], c)] else [])
  {
    ClassIndexSpec(row);
    assert [b][1..] == [] && [row][1..] == [];
  }

  /** The rows are filtered one by one, keeping their order. */
  lemma {:induction false} ValidAppend(b1: seq<BBox>, s1: seq<seq<real>>, b2: seq<BBox>, s2: seq<seq<real>>, scoreThr: real)
    requires |b1| == |s1| && |b2| == |s2|
    requires forall i :: 0 <= i < |s1| ==> |s1[i]| > 0
    requires forall i :: 0 <= i < |s2| ==> |s2[i]| > 0
    ensures forall i :: 0 <= i < |s1 + s2| ==> |(s1 + s2)[i]| > 0
    ensures Valid(b1 + b2, s1 + s2, scoreThr) == Valid(b1, s1, scoreThr) + Valid(b2, s2, scoreThr)
  {
    if |b1| > 0 {
      assert (b1 + b2)[1..] == b1[1..] + b2;
      assert (s1 + s2)[1..] == s1[1..] + s2;
      ValidAppend(b1[1..], s1[1..], b2, s2, scoreThr);
    } else {
      assert b1 + b2 == b2 && s1 + s2 == s2;
    }
  }

  function Boxes(d: seq<Detection>): (r: seq<BBox>)
    ensures |r| == |d| && forall k :: 0 <= k < |d| ==> r[k] == d[k].bbox
  {
    if |d| == 0 then [] else [d[0].bbox] + Boxes(d[1..])
  }

  function Scores(d: seq<Detection>): (r: seq<real>)
    ensures |r| == |d| && forall k :: 0 <= k < |d| ==> r[k] == d[k].score
  {
    if |d| == 0 then [] else [d[0].score] + Scores(d[1..])
  }

  /** The detections at the given indices, in order. */
  function Pick(valid: seq<Detection>, keep: seq<nat>): (r: seq<Detection>)
    requires ValidIndices(keep, |valid|)
    ensures |r| == |keep| && forall k :: 0 <= k < |keep| ==> r[k] == valid[keep[k]]
  {
    if |keep| == 0 then [] else [valid[keep[0]]] + Pick(valid, keep[1..])
  }

  /**
   * `multiclass_nms_class_agnostic`: mask rows by class score, run the index
   * NMS over the surviving rows, and emit (box, score, class) for each kept row.
   */
  method MulticlassNms(boxes: seq<BBox>, scores: seq<seq<real>>, nmsThr: real, scoreThr: real)
    returns (dets: seq<Detection>)
    requires |boxes| == |scores|
    requires forall i :: 0 <= i < |scores| ==> |scores[i]| > 0
    ensures var valid := Valid(boxes, scores, scoreThr);
      dets == Pick(valid, KeptIndices(Boxes(valid), Scores(valid), nmsThr))
  {
    var valid := Valid(boxes, scores, scoreThr);
    var keep := Nms(Boxes(valid), Scores(valid), nmsThr);
    dets := Emit(valid, keep);
  }

  /** The output loop: one detection per kept index. */
  method Emit(valid: seq<Detection>, keep: seq<nat>) returns (dets: seq<Detection>)
    requires ValidIndices(keep, |valid|)
    ensures dets == Pick(valid, keep)
  {
    dets := [];
    var k := 0;
    while k < |keep|
      invariant 0 <= k <= |keep|
      invariant |dets| == k && forall m :: 0 <= m < k ==> dets[m] == valid[keep[m]]
    {
      dets := dets + [valid[keep[k]]];
      k := k + 1;
    }
  }

  /**
   * Every emitted detection carries its row's class score above the score
   * threshold, and emitted rows pairwise pass the overlap test.
   */
  lemma MulticlassNmsProperties(boxes: seq<BBox>, scores: seq<seq<real>>, nmsThr: real, scoreThr: real)
    requires |boxes| == |scores|
    requires forall i :: 0 <= i < |scores| ==> |scores[i]| > 0
    ensures var valid := Valid(boxes, scores, scoreThr);
      var dets := Pick(valid, KeptIndices(Boxes(valid), Scores(valid), nmsThr));
      |dets| <= |boxes|
      && (forall k :: 0 <= k < |dets| ==> dets[k].score > scoreThr)
      && (forall a, b :: 0 <= a < b < |dets| ==> Survives(dets[a].bbox, dets[b].bbox, nmsThr))
  {
    var valid := Valid(boxes, scores, scoreThr);
    var keep := KeptIndices(Boxes(valid), Scores(valid), nmsThr);
    KeepFromSeparated(InitialOrder(Scores(valid)), Boxes(valid), nmsThr);
    var dets := Pick(valid, keep);
    forall a, b | 0 <= a < b < |dets| ensures Survives(dets[a].bbox, dets[b].bbox, nmsThr) {
      assert Boxes(valid)[keep[a]] == dets[a].bbox;
      assert Boxes(valid)[keep[b]] == dets[b].bbox;
    }
  }
}
