/**
 * Layout post-processing of the older engine: the same detector output, a
 * different label order, no box ids, no rescaling, and a class-aware NMS with
 * plain IoU.
 */
module LegacyLayout {
  import opened Geometry
  import opened Sorting
  import opened Nms
  import Layout

  /** Label of each class score, by position (Title is third here). */
  const ID2LABEL: seq<string> := [
    "Caption", "Footnote", "Title", "Formula", "List-item", "Page-footer",
    "Page-header", "Picture", "Section-header", "Table", "Text"
  ]

  const CONF_THRESHOLD: real := 0.3
  const IOU_THRESHOLD: real := 0.7

  /** A detected region; `category` is its detector label. */
  datatype LegacyBox = LegacyBox(bbox: BBox, category: string, proba: real)

  /** Clamped corners: each coordinate is raised to 0, then lowered to the image side. */
  function Corners(p: Layout.Prediction, width: nat, height: nat): (b: BBox)
    requires width > 0 && height > 0
    ensures 0.0 <= b.x0 <= width as real && 0.0 <= b.x1 <= width as real
    ensures 0.0 <= b.y0 <= height as real && 0.0 <= b.y1 <= height as real
    ensures p.w >= 0.0 && p.h >= 0.0 ==> WellFormed(b)
  {
    var r := Layout.Ratio(width, height);
    var xc := p.cx / r;
    var yc := p.cy / r;
    var w := p.w / r;
    var h := p.h / r;
    assert p.w >= 0.0 ==> w >= 0.0;
    assert p.h >= 0.0 ==> h >= 0.0;
    BBox(Min(Max(xc - w / 2.0, 0.0), width as real),
         Min(Max(yc - h / 2.0, 0.0), height as real),
         Min(Max(xc + w / 2.0, 0.0), width as real),
         Min(Max(yc + h / 2.0, 0.0), height as real))
  }

  predicate Confident(p: Layout.Prediction)
    requires |p.scores| > 0
  {
    p.scores[Layout.ArgMaxLast(p.scores)] >= CONF_THRESHOLD
  }

  /**
   * The extraction asserts that every kept prediction has ordered corners and
   * panics otherwise; callers must supply such predictions.
   */
  predicate AssertionsHold(preds: seq<Layout.Prediction>, width: nat, height: nat)
    requires width > 0 && height > 0 && Layout.WellShaped(preds)
  {
    forall i :: 0 <= i < |preds| && Confident(preds[i]) ==> WellFormed(Corners(preds[i], width, height))
  }

  /** The assertions hold whenever every predicted size is non-negative. */
  lemma NonNegativeSizesSatisfyAssertions(preds: seq<Layout.Prediction>, width: nat, height: nat)
    requires width > 0 && height > 0 && Layout.WellShaped(preds)
    requires forall i :: 0 <= i < |preds| ==> preds[i].w >= 0.0 && preds[i].h >= 0.0
    ensures AssertionsHold(preds, width, height)
  {
  }

  function Extracted(preds: seq<Layout.Prediction>, width: nat, height: nat): (r: seq<LegacyBox>)
    requires width > 0 && height > 0 && Layout.WellShaped(preds)
    ensures |r| <= |preds|
  {
    if |preds| == 0 then []
    else
      var prev := Extracted(preds[..|preds| - 1], width, height);
      var p := preds[|preds| - 1];
      var k := Layout.ArgMaxLast(p.scores);
      if p.scores[k] < CONF_THRESHOLD then prev
      else prev + [LegacyBox(Corners(p, width, height), ID2LABEL[k], p.scores[k])]
  }

  /** The extraction loop: confident predictions become boxes clamped to the image, in order. */
  method ExtractBBoxes(preds: seq<Layout.Prediction>, width: nat, height: nat)
    returns (result: seq<LegacyBox>)
    requires width > 0 && height > 0 && Layout.WellShaped(preds)
    requires AssertionsHold(preds, width, height)
    ensures result == Extracted(preds, width, height)
    ensures forall i :: 0 <= i < |result| ==>
      result[i].proba >= CONF_THRESHOLD && result[i].category in ID2LABEL
      && WellFormed(result[i].bbox)
      && 0.0 <= result[i].bbox.x0 && result[i].bbox.x1 <= width as real
      && 0.0 <= result[i].bbox.y0 && result[i].bbox.y1 <= height as real
  {
    result := [];
    var n := 0;
    while n < |preds|
      invariant 0 <= n <= |preds|
      invariant result == Extracted(preds[..n], width, height)
      invariant forall i :: 0 <= i < |result| ==>
        result[i].proba >= CONF_THRESHOLD && result[i].category in ID2LABEL
        && WellFormed(result[i].bbox)
        && 0.0 <= result[i].bbox.x0 && result[i].bbox.x1 <= width as real
        && 0.0 <= result[i].bbox.y0 && result[i].bbox.y1 <= height as real
    {
      var p := preds[n];
      assert preds[..n + 1][..n] == preds[..n];
      assert preds[..n + 1][n] == p;
      var k := Layout.ArgMaxLast(p.scores);
      var proba := p.scores[k];
      if proba >= CONF_THRESHOLD {
        var c := Corners(p, width, height);
        assert Confident(p);
        result := result + [LegacyBox(c, ID2LABEL[k], proba)];
      }
      n := n + 1;
    }
    assert preds[..n] == preds;
  }

  // ---------------------------------------------------------------------------
  // Class-aware NMS with plain IoU
  // ---------------------------------------------------------------------------

  function Proba(b: LegacyBox): real { b.proba }

  /** `iou(a, b) > thr` under IEEE division (zero union: +inf if they intersect, NaN otherwise). */
  predicate IouExceeds(a: BBox, b: BBox, thr: real)
  {
    if Union(a, b) == 0.0 then Intersection(a, b) > 0.0 else Iou(a, b) > thr
  }

  /** A kept box suppresses a candidate of the same label whose IoU with it exceeds the threshold. */
  predicate SameLabelSuppresses(kept: LegacyBox, candidate: LegacyBox, thr: real)
  {
    IouExceeds(candidate.bbox, kept.bbox, thr) && kept.category == candidate.category
  }

  function LegacyNms(boxes: seq<LegacyBox>, thr: real): seq<LegacyBox>
  {
    Suppress(boxes, Proba, SameLabelSuppresses, thr)
  }

  method NmsInPlace(a: array<LegacyBox>, thr: real) returns (kept: nat)
    modifies a
    ensures kept <= a.Length
    ensures a[..kept] == LegacyNms(old(a[..]), thr)
  {
    kept := SuppressInPlace(a, Proba, SameLabelSuppresses, thr);
  }

  /** Output sorted by non-increasing probability, a sub-multiset of the input. */
  lemma LegacyNmsSorted(boxes: seq<LegacyBox>, thr: real)
    ensures SortedDesc(LegacyNms(boxes, thr), Proba)
    ensures |LegacyNms(boxes, thr)| <= |boxes|
    ensures multiset(LegacyNms(boxes, thr)) <= multiset(boxes)
  {
    SortDescSorted(boxes, Proba);
    SurvivorsSorted(SortDesc(boxes, Proba), Proba, SameLabelSuppresses, thr);
  }

  /** Two survivors with the same label never exceed the IoU threshold. */
  lemma LegacyNmsSeparated(boxes: seq<LegacyBox>, thr: real)
    ensures var r := LegacyNms(boxes, thr);
      forall i, j :: 0 <= i < j < |r| && r[i].category == r[j].category ==> !IouExceeds(r[j].bbox, r[i].bbox, thr)
  {
    SurvivorsPairwise(SortDesc(boxes, Proba), SameLabelSuppresses, thr);
  }

  /** Every input box survives or overlaps a survivor of its label that is at least as probable. */
  lemma LegacyNmsCovers(boxes: seq<LegacyBox>, thr: real)
    ensures var r := LegacyNms(boxes, thr);
      forall b :: b in boxes ==>
        b in r || exists k :: 0 <= k < |r| && r[k].proba >= b.proba && r[k].category == b.category
                              && IouExceeds(b.bbox, r[k].bbox, thr)
  {
    var sorted := SortDesc(boxes, Proba);
    var r := LegacyNms(boxes, thr);
    SortDescSorted(boxes, Proba);
    SurvivorsCover(sorted, Proba, SameLabelSuppresses, thr);
    forall b | b in boxes
      ensures b in r || exists k :: 0 <= k < |r| && r[k].proba >= b.proba && r[k].category == b.category
                                    && IouExceeds(b.bbox, r[k].bbox, thr)
    {
      assert b in multiset(sorted);
      var j := InMultisetAt(b, sorted);
      assert CoveredBy(r, sorted[j], Proba, SameLabelSuppresses, thr);
      if b !in r {
        var k :| 0 <= k < |r| && Proba(r[k]) >= Proba(sorted[j]) && SameLabelSuppresses(r[k], sorted[j], thr);
      }
    }
  }

  /** The most probable box survives. */
  lemma LegacyNmsKeepsBest(boxes: seq<LegacyBox>, thr: real)
    requires |boxes| > 0
    ensures var r := LegacyNms(boxes, thr);
      |r| > 0 && forall b :: b in boxes ==> r[0].proba >= b.proba
  {
    var sorted := SortDesc(boxes, Proba);
    SurvivorsKeepFirst(sorted, SameLabelSuppresses, thr);
    SortDescSorted(boxes, Proba);
    forall b | b in boxes ensures sorted[0].proba >= b.proba {
      assert b in multiset(sorted);
      var j := InMultisetAt(b, sorted);
      if j > 0 {
        assert Proba(sorted[0]) >= Proba(sorted[j]);
      }
    }
  }

  lemma LegacyNmsIdempotent(boxes: seq<LegacyBox>, thr: real)
    ensures LegacyNms(LegacyNms(boxes, thr), thr) == LegacyNms(boxes, thr)
  {
    SuppressIdempotent(boxes, Proba, SameLabelSuppresses, thr);
  }

  /** Boxes whose labels are pairwise different never suppress each other: all survive. */
  lemma LegacyNmsKeepsDistinctLabels(boxes: seq<LegacyBox>, thr: real)
    requires forall i, j :: 0 <= i < j < |boxes| ==> boxes[i].category != boxes[j].category
    ensures LegacyNms(boxes, thr) == SortDesc(boxes, Proba)
  {
    assert Distinct(boxes);
    var sorted := SortDesc(boxes, Proba);
    SortDescDistinct(boxes, Proba);
    forall i, j | 0 <= i < j < |sorted| ensures !SameLabelSuppresses(sorted[i], sorted[j], thr) {
      var a, b := sorted[i], sorted[j];
      assert a in multiset(sorted) && b in multiset(sorted);
      var p := InMultisetAt(a, boxes);
      var q := InMultisetAt(b, boxes);
      assert p != q;
    }
    SurvivorsOfIndependent(sorted, SameLabelSuppresses, thr);
  }
}
