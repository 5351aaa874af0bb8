/**
 * Post-processing of the layout detector of the current engine: turning the
 * raw prediction tensor into labelled page boxes and removing duplicates.
 *
 * The tensor is taken as a sequence of predictions, one per anchor, each with
 * a centre, a size and one score per label; running the network is not part
 * of this model.
 */
module Layout {
  import opened Wrappers
  import opened Geometry
  import opened Sorting
  import opened Nms

  /** Label of each class score, by position. */
  const ID2LABEL: seq<string> := [
    "Caption", "Footnote", "Formula", "List-item", "Page-footer", "Page-header",
    "Picture", "Section-header", "Table", "Text", "Title"
  ]

  /** The detector's input side, in pixels. */
  const REQUIRED_WIDTH: real := 1024.0
  const REQUIRED_HEIGHT: real := 1024.0
  const CONF_THRESHOLD: real := 0.3
  const IOU_THRESHOLD: real := 0.8

  /** A detected region; `category` is the detector label of the region. */
  datatype LayoutBox = LayoutBox(id: int, bbox: BBox, category: string, proba: real)

  /** One anchor of the tensor: centre, size (detector pixels) and the class scores. */
  datatype Prediction = Prediction(cx: real, cy: real, w: real, h: real, scores: seq<real>)

  /** Every prediction carries one score per label (the tensor has 4 + 11 rows). */
  predicate WellShaped(preds: seq<Prediction>)
  {
    forall i :: 0 <= i < |preds| ==> |preds[i].scores| == |ID2LABEL|
  }

  predicate IsTextLabel(name: string)
  {
    name == "Text" || name == "Caption" || name == "Footnote" || name == "Formula"
    || name == "List-item" || name == "Page-footer" || name == "Page-header"
    || name == "Section-header" || name == "Title"
  }

  predicate IsTextBlock(b: LayoutBox) { IsTextLabel(b.category) }

  /** Of the detector's labels, exactly "Picture" and "Table" are not text. */
  lemma TextLabels(name: string)
    requires name in ID2LABEL
    ensures IsTextLabel(name) <==> name != "Picture" && name != "Table"
  {
  }

  /** Index of the largest score; on ties the last one (as `Iterator::max_by`). */
  function ArgMaxLast(s: seq<real>): (k: nat)
    requires |s| > 0
    ensures k < |s|
    ensures forall j :: 0 <= j < |s| ==> s[j] <= s[k]
    ensures forall j :: k < j < |s| ==> s[j] < s[k]
  {
    if |s| == 1 then 0
    else
      var k := ArgMaxLast(s[..|s| - 1]);
      assert forall j :: 0 <= j < |s| - 1 ==> s[j] == s[..|s| - 1][j];
      if s[|s| - 1] >= s[k] then |s| - 1 else k
  }

  /** Scale from page image pixels to detector pixels (the image is fitted into 1024x1024). */
  function Ratio(width: nat, height: nat): (r: real)
    requires width > 0 && height > 0
    ensures r > 0.0
    ensures r * width as real <= REQUIRED_WIDTH && r * height as real <= REQUIRED_HEIGHT
  {
    var rw := REQUIRED_WIDTH / width as real;
    var rh := REQUIRED_HEIGHT / height as real;
    assert rw * width as real == REQUIRED_WIDTH;
    assert rh * height as real == REQUIRED_HEIGHT;
    Min(rw, rh)
  }

  /** The box of one prediction in page image pixels, clamped to the image, before rescaling. */
  function Corners(p: Prediction, width: nat, height: nat): (b: BBox)
    requires width > 0 && height > 0
    ensures 0.0 <= b.x0 <= width as real && 0.0 <= b.x1 <= width as real
    ensures 0.0 <= b.y0 <= height as real && 0.0 <= b.y1 <= height as real
  {
    var r := Ratio(width, height);
    var xc := p.cx / r;
    var yc := p.cy / r;
    var w := p.w / r;
    var h := p.h / r;
    BBox(Max(Min(xc - w / 2.0, width as real), 0.0),
         Max(Min(yc - h / 2.0, height as real), 0.0),
         Min(Max(xc + w / 2.0, 0.0), width as real),
         Min(Max(yc + h / 2.0, 0.0), height as real))
  }

  function Scale(b: BBox, f: real): BBox
  {
    BBox(b.x0 * f, b.y0 * f, b.x1 * f, b.y1 * f)
  }

  /** The box one prediction contributes, numbered `id`, or None when it is skipped. */
  function ExtractOne(p: Prediction, width: nat, height: nat, rescale: real, id: int): Option<LayoutBox>
    requires width > 0 && height > 0 && |p.scores| == |ID2LABEL|
  {
    var k := ArgMaxLast(p.scores);
    var proba := p.scores[k];
    if proba < CONF_THRESHOLD then None
    else
      var c := Corners(p, width, height);
      if c.x0 > c.x1 || c.y0 > c.y1 then None
      else Some(LayoutBox(id, Scale(c, rescale), ID2LABEL[k], proba))
  }

  /** The boxes extracted from the predictions, numbered in the order they are emitted. */
  function Extracted(preds: seq<Prediction>, width: nat, height: nat, rescale: real): (r: seq<LayoutBox>)
    requires width > 0 && height > 0 && WellShaped(preds)
    ensures |r| <= |preds|
  {
    if |preds| == 0 then []
    else
      var prev := Extracted(preds[..|preds| - 1], width, height, rescale);
      match ExtractOne(preds[|preds| - 1], width, height, rescale, |prev|)
      case None => prev
      case Some(b) => prev + [b]
  }

  /** A box lying in the page rescaled by `f`. */
  predicate InScaledPage(b: BBox, width: nat, height: nat, f: real)
  {
    0.0 <= b.x0 <= b.x1 <= width as real * f && 0.0 <= b.y0 <= b.y1 <= height as real * f
  }

  lemma ScaleInPage(c: BBox, width: nat, height: nat, f: real)
    requires f >= 0.0
    requires 0.0 <= c.x0 <= c.x1 <= width as real && 0.0 <= c.y0 <= c.y1 <= height as real
    ensures InScaledPage(Scale(c, f), width, height, f)
  {
    assert c.x0 * f <= c.x1 * f <= width as real * f;
    assert c.y0 * f <= c.y1 * f <= height as real * f;
  }

  /**
   * What each emitted box satisfies: confident enough, labelled by one of the
   * detector's labels, and (for a non-negative rescale factor) inside the page.
   */
  predicate Emitted(b: LayoutBox, width: nat, height: nat, rescale: real)
  {
    b.proba >= CONF_THRESHOLD && b.category in ID2LABEL
    && (rescale >= 0.0 ==> InScaledPage(b.bbox, width, height, rescale))
  }

  lemma ExtractOneEmitted(p: Prediction, width: nat, height: nat, rescale: real, id: int)
    requires width > 0 && height > 0 && |p.scores| == |ID2LABEL|
    ensures ExtractOne(p, width, height, rescale, id).Some? ==>
      var b := ExtractOne(p, width, height, rescale, id).value;
      b.id == id && Emitted(b, width, height, rescale)
      && b.category == ID2LABEL[ArgMaxLast(p.scores)]
      && b.proba == p.scores[ArgMaxLast(p.scores)]
      && b.bbox == Scale(Corners(p, width, height), rescale)
    ensures p.scores[ArgMaxLast(p.scores)] < CONF_THRESHOLD ==> ExtractOne(p, width, height, rescale, id).None?
  {
    if ExtractOne(p, width, height, rescale, id).Some? && rescale >= 0.0 {
      ScaleInPage(Corners(p, width, height), width, height, rescale);
    }
  }

  /**
   * The extraction loop: skip low-confidence and inverted boxes, number the
   * rest 0, 1, 2, ... in tensor order.
   */
  method ExtractBBoxes(preds: seq<Prediction>, width: nat, height: nat, rescale: real)
    returns (result: seq<LayoutBox>)
    requires width > 0 && height > 0 && WellShaped(preds)
    ensures result == Extracted(preds, width, height, rescale)
    ensures forall i :: 0 <= i < |result| ==> result[i].id == i
    ensures forall i :: 0 <= i < |result| ==> Emitted(result[i], width, height, rescale)
  {
    result := [];
    var bboxId := 0;
    var n := 0;
    while n < |preds|
      invariant 0 <= n <= |preds|
      invariant bboxId == |result|
      invariant result == Extracted(preds[..n], width, height, rescale)
    {
      ExtractedSnoc(preds, n, width, height, rescale);
      var b := ExtractAt(preds[n], width, height, rescale, bboxId);
      if b.Some? {
        result := result + [b.value];
        bboxId := bboxId + 1;
      }
      n := n + 1;
    }
    assert preds[..n] == preds;
    ExtractedFacts(preds, width, height, rescale);
  }

  /** One turn of the extraction loop: the confidence test, then the corner test. */
  method ExtractAt(p: Prediction, width: nat, height: nat, rescale: real, id: int) returns (b: Option<LayoutBox>)
    requires width > 0 && height > 0 && |p.scores| == |ID2LABEL|
    ensures b == ExtractOne(p, width, height, rescale, id)
  {
    var k := ArgMaxLast(p.scores);
    var proba := p.scores[k];
    b := None;
    if proba >= CONF_THRESHOLD {
      var c := Corners(p, width, height);
      if !(c.x0 > c.x1 || c.y0 > c.y1) {
        b := Some(LayoutBox(id, Scale(c, rescale), ID2LABEL[k], proba));
      }
    }
  }

  /** One more prediction adds its box, if any, numbered after the boxes so far. */
  lemma ExtractedSnoc(preds: seq<Prediction>, n: nat, width: nat, height: nat, rescale: real)
    requires width > 0 && height > 0 && WellShaped(preds) && n < |preds|
    ensures |preds[n].scores| == |ID2LABEL|
    ensures var prev := Extracted(preds[..n], width, height, rescale);
      Extracted(preds[..n + 1], width, height, rescale)
      == match ExtractOne(preds[n], width, height, rescale, |prev|)
         case None => prev
         case Some(b) => prev + [b]
  {
    assert preds[..n + 1][..n] == preds[..n];
    assert preds[..n + 1][n] == preds[n];
  }

  // ---------------------------------------------------------------------------
  // Class-agnostic NMS with relaxed IoU
  // ---------------------------------------------------------------------------

  function Proba(b: LayoutBox): real { b.proba }

  /**
   * `relaxed_iou(kept, candidate) > thr` under IEEE division: a zero smaller
   * area yields +inf (exceeds) when something intersects, NaN (never exceeds)
   * otherwise.
   */
  predicate RelaxedIouExceeds(a: BBox, b: BBox, thr: real)
  {
    var den := Min(Area(a), Area(b));
    if den == 0.0 then Intersection(a, b) > 0.0 else RelaxedIou(a, b) > thr
  }

  /** A kept box suppresses a candidate when their relaxed IoU exceeds the threshold, whatever the labels. */
  predicate AgnosticSuppresses(kept: LayoutBox, candidate: LayoutBox, thr: real)
  {
    RelaxedIouExceeds(kept.bbox, candidate.bbox, thr)
  }

  function LayoutNms(boxes: seq<LayoutBox>, thr: real): seq<LayoutBox>
  {
    Suppress(boxes, Proba, AgnosticSuppresses, thr)
  }

  /** `nms` on the detector's boxes, in place: the survivors are `a[..kept]`. */
  method NmsInPlace(a: array<LayoutBox>, thr: real) returns (kept: nat)
    modifies a
    ensures kept <= a.Length
    ensures a[..kept] == LayoutNms(old(a[..]), thr)
  {
    kept := SuppressInPlace(a, Proba, AgnosticSuppresses, thr);
  }

  /** The whole post-processing of one page: extraction, then NMS at the fixed threshold. */
  method ParseLayout(preds: seq<Prediction>, width: nat, height: nat, rescale: real)
    returns (boxes: seq<LayoutBox>)
    requires width > 0 && height > 0 && WellShaped(preds)
    ensures boxes == LayoutNms(Extracted(preds, width, height, rescale), IOU_THRESHOLD)
  {
    var extracted := ExtractBBoxes(preds, width, height, rescale);
    var a := new LayoutBox[|extracted|](i requires 0 <= i < |extracted| => extracted[i]);
    assert a[..] == extracted;
    var kept := NmsInPlace(a, IOU_THRESHOLD);
    boxes := a[..kept];
  }

  /** NMS output is ordered by non-increasing probability, and never longer than its input. */
  lemma LayoutNmsSorted(boxes: seq<LayoutBox>, thr: real)
    ensures SortedDesc(LayoutNms(boxes, thr), Proba)
    ensures |LayoutNms(boxes, thr)| <= |boxes|
    ensures multiset(LayoutNms(boxes, thr)) <= multiset(boxes)
  {
    SortDescSorted(boxes, Proba);
    SurvivorsSorted(SortDesc(boxes, Proba), Proba, AgnosticSuppresses, thr);
  }

  /** No two survivors exceed the relaxed-IoU threshold, whatever their labels. */
  lemma LayoutNmsSeparated(boxes: seq<LayoutBox>, thr: real)
    ensures var r := LayoutNms(boxes, thr);
      forall i, j :: 0 <= i < j < |r| ==> !RelaxedIouExceeds(r[i].bbox, r[j].bbox, thr)
  {
    SurvivorsPairwise(SortDesc(boxes, Proba), AgnosticSuppresses, thr);
  }

  /**
   * Every input box survives, or exceeds the threshold against a survivor
   * that is at least as probable.
   */
  lemma LayoutNmsCovers(boxes: seq<LayoutBox>, thr: real)
    ensures var r := LayoutNms(boxes, thr);
      forall b :: b in boxes ==>
        b in r || exists k :: 0 <= k < |r| && r[k].proba >= b.proba && RelaxedIouExceeds(r[k].bbox, b.bbox, thr)
  {
    var sorted := SortDesc(boxes, Proba);
    var r := LayoutNms(boxes, thr);
    SortDescSorted(boxes, Proba);
    SurvivorsCover(sorted, Proba, AgnosticSuppresses, thr);
    forall b | b in boxes
      ensures b in r || exists k :: 0 <= k < |r| && r[k].proba >= b.proba && RelaxedIouExceeds(r[k].bbox, b.bbox, thr)
    {
      assert b in multiset(sorted);
      var j := InMultisetAt(b, sorted);
      assert CoveredBy(r, sorted[j], Proba, AgnosticSuppresses, thr);
      if b !in r {
        var k :| 0 <= k < |r| && Proba(r[k]) >= Proba(sorted[j]) && AgnosticSuppresses(r[k], sorted[j], thr);
      }
    }
  }

  /** The most probable box (the first after sorting) always survives. */
  lemma LayoutNmsKeepsBest(boxes: seq<LayoutBox>, thr: real)
    requires |boxes| > 0
    ensures var r := LayoutNms(boxes, thr);
      |r| > 0 && forall b :: b in boxes ==> r[0].proba >= b.proba
  {
    var sorted := SortDesc(boxes, Proba);
    SurvivorsKeepFirst(sorted, AgnosticSuppresses, thr);
    SortDescSorted(boxes, Proba);
    forall b | b in boxes ensures sorted[0].proba >= b.proba {
      assert b in multiset(sorted);
      var j := InMultisetAt(b, sorted);
      if j > 0 {
        assert Proba(sorted[0]) >= Proba(sorted[j]);
      }
    }
  }

  /** NMS applied to its own output at the same threshold changes nothing. */
  lemma LayoutNmsIdempotent(boxes: seq<LayoutBox>, thr: real)
    ensures LayoutNms(LayoutNms(boxes, thr), thr) == LayoutNms(boxes, thr)
  {
    SuppressIdempotent(boxes, Proba, AgnosticSuppresses, thr);
  }

  /** A box containing a more probable box of positive area is removed (the contained-box test). */
  lemma LayoutNmsDropsContained(outer: LayoutBox, inner: LayoutBox, thr: real)
    requires WellFormed(inner.bbox) && Area(inner.bbox) > 0.0 && Contains(outer.bbox, inner.bbox)
    requires inner.proba > outer.proba && thr < 1.0
    ensures LayoutNms([outer, inner], thr) == [inner]
  {
    SortTwo(outer, inner);
    ContainedSuppressed(outer, inner, thr);
    var s := [inner, outer];
    assert s[..1] == [inner] && s[..|s| - 1] == [inner] && s[|s| - 1] == outer;
    assert [inner][..0] == [];
    assert Survivors([inner], AgnosticSuppresses, thr) == [inner];
    assert SuppressedBy([inner], outer, AgnosticSuppresses, thr);
  }

  /** Two boxes are sorted by descending probability. */
  lemma SortTwo(a: LayoutBox, b: LayoutBox)
    requires b.proba > a.proba
    ensures SortDesc([a, b], Proba) == [b, a]
  {
    assert SortDesc([b], Proba) == [b];
    assert [a, b][1..] == [b];
  }

  /** The smaller box suppresses the box containing it: their relaxed IoU is 1. */
  lemma ContainedSuppressed(outer: LayoutBox, inner: LayoutBox, thr: real)
    requires WellFormed(inner.bbox) && Area(inner.bbox) > 0.0 && Contains(outer.bbox, inner.bbox)
    requires thr < 1.0
    ensures AgnosticSuppresses(inner, outer, thr)
  {
    ContainedIntersection(outer.bbox, inner.bbox);
    RelaxedIouRange(inner.bbox, outer.bbox);
  }

  /**
   * Boxes that pairwise do not intersect all survive (non-negative threshold),
   * in order of probability.
   */
  lemma LayoutNmsKeepsDisjoint(boxes: seq<LayoutBox>, thr: real)
    requires thr >= 0.0 && Distinct(boxes)
    requires forall a, b :: a in boxes && b in boxes && a != b ==> Intersection(a.bbox, b.bbox) == 0.0
    ensures LayoutNms(boxes, thr) == SortDesc(boxes, Proba)
  {
    var sorted := SortDesc(boxes, Proba);
    SortDescDistinct(boxes, Proba);
    forall i, j | 0 <= i < j < |sorted| ensures !AgnosticSuppresses(sorted[i], sorted[j], thr) {
      var a, b := sorted[i], sorted[j];
      assert a in multiset(sorted) && b in multiset(sorted);
      assert a in boxes && b in boxes;
      assert a != b;
      NoIntersectionNotExceeds(a.bbox, b.bbox, thr);
    }
    SurvivorsOfIndependent(sorted, AgnosticSuppresses, thr);
  }

  lemma NoIntersectionNotExceeds(a: BBox, b: BBox, thr: real)
    requires thr >= 0.0 && Intersection(a, b) == 0.0
    ensures !RelaxedIouExceeds(a, b, thr)
  {
    if Min(Area(a), Area(b)) != 0.0 {
      assert RelaxedIou(a, b) == 0.0;
    }
  }

  /** Emitted boxes carry distinct ids, hence are pairwise distinct. */
  lemma ExtractedDistinct(preds: seq<Prediction>, width: nat, height: nat, rescale: real)
    requires width > 0 && height > 0 && WellShaped(preds)
    ensures Distinct(Extracted(preds, width, height, rescale))
  {
    ExtractedFacts(preds, width, height, rescale);
  }

  /** Each box's id is its position, and each satisfies the emission conditions. */
  predicate NumberedAndEmitted(r: seq<LayoutBox>, width: nat, height: nat, rescale: real)
  {
    (forall i :: 0 <= i < |r| ==> r[i].id == i) && forall i :: 0 <= i < |r| ==> Emitted(r[i], width, height, rescale)
  }

  /**
   * Ids of the extracted boxes are their positions (the loop's counter), and
   * every extracted box satisfies the emission conditions.
   */
  lemma {:induction false} ExtractedFacts(preds: seq<Prediction>, width: nat, height: nat, rescale: real)
    requires width > 0 && height > 0 && WellShaped(preds)
    ensures NumberedAndEmitted(Extracted(preds, width, height, rescale), width, height, rescale)
  {
    if |preds| > 0 {
      var init := preds[..|preds| - 1];
      var last := preds[|preds| - 1];
      ExtractedFacts(init, width, height, rescale);
      var prev := Extracted(init, width, height, rescale);
      ExtractOneEmitted(last, width, height, rescale, |prev|);
      var r := Extracted(preds, width, height, rescale);
      match ExtractOne(last, width, height, rescale, |prev|)
      case None =>
        assert r == prev;
      case Some(b) =>
        assert r == prev + [b];
        forall i | 0 <= i < |r| ensures r[i].id == i && Emitted(r[i], width, height, rescale) {
          if i < |prev| {
            assert r[i] == prev[i];
          } else {
            assert r[i] == b;
          }
        }
    }
  }
}
