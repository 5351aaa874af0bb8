/**
 * Text recognition results of the older engine: the recogniser's regions,
 * given as normalised rectangles with a bottom-left origin, become text lines
 * whose boxes are the image pixels divided by the factor the caller passes.
 *
 * The recogniser itself is not modelled: its regions are an input.
 */
module Vision {
  import opened Wrappers
  import opened Geometry
  import Lines

  /** Regions at or below this confidence are dropped. */
  const CONFIDENCE_THRESHOLD: real := 0.0

  /** A normalised rectangle: origin (bottom-left corner) and size, as fractions of the image. */
  datatype Rect = Rect(ox: real, oy: real, w: real, h: real)

  /** The best transcription of a region. */
  datatype Candidate = Candidate(text: string, confidence: real)

  /** One recognised region: its confidence, its best candidate if any, and its rectangle. */
  datatype Region = Region(confidence: real, top: Option<Candidate>, rect: Rect)

  /** An OCR line: text, the candidate's confidence and the page box. */
  datatype OcrLine = OcrLine(text: string, confidence: real, bbox: BBox)

  /** The corners of the rectangle in image pixels, top-left origin, before rescaling. */
  function PixelBox(r: Rect, width: nat, height: nat): (b: BBox)
    ensures Width(b) == r.w * width as real && Height(b) == r.h * height as real
    ensures b.y1 + r.oy * height as real == height as real
  {
    var x0 := r.ox * width as real;
    var y1 := (1.0 - r.oy) * height as real;
    BBox(x0, y1 - r.h * height as real, x0 + r.w * width as real, y1)
  }

  /** The conditions `cgrect_to_bbox` asserts (it panics otherwise). */
  predicate Asserted(r: Rect, width: nat, height: nat)
  {
    var b := PixelBox(r, width, height);
    b.x0 < b.x1 && b.y0 < b.y1 && b.x1 < width as real && b.y1 < height as real
  }

  lemma AssertedImagePositive(r: Rect, width: nat, height: nat)
    requires Asserted(r, width, height)
    ensures width > 0 && height > 0 && r.w > 0.0 && r.h > 0.0
  {
  }

  /**
   * `cgrect_to_bbox`: the rectangle in image pixels, top-left origin, divided
   * by the factor `rescale` the caller passes. The box is proper, its size is
   * the rectangle's share of the image divided by `rescale`, and it lies left
   * of and above the image's far edges divided by `rescale`.
   */
  function CgRectToBBox(r: Rect, width: nat, height: nat, rescale: real): (b: BBox)
    requires rescale > 0.0
    requires Asserted(r, width, height)
    ensures b.x0 < b.x1 && b.y0 < b.y1
    ensures b.x1 < width as real / rescale && b.y1 < height as real / rescale
    ensures Width(b) == r.w * width as real / rescale && Height(b) == r.h * height as real / rescale
  {
    var p := PixelBox(r, width, height);
    DivMonotone(p.x0, p.x1, rescale);
    DivMonotone(p.y0, p.y1, rescale);
    DivMonotone(p.x1, width as real, rescale);
    DivMonotone(p.y1, height as real, rescale);
    assert p.x1 / rescale - p.x0 / rescale == (p.x1 - p.x0) / rescale;
    assert p.y1 / rescale - p.y0 / rescale == (p.y1 - p.y0) / rescale;
    BBox(p.x0 / rescale, p.y0 / rescale, p.x1 / rescale, p.y1 / rescale)
  }

  lemma DivMonotone(a: real, b: real, f: real)
    requires f > 0.0 && a < b
    ensures a / f < b / f
  {
    assert b / f - a / f == (b - a) / f;
  }

  /** The normalised rectangle, bottom-left origin, of a page box seen in an image `width` x `height` at `rescale`. */
  function Normalize(b: BBox, width: nat, height: nat, rescale: real): Rect
    requires width > 0 && height > 0
  {
    Rect(b.x0 * rescale / width as real, 1.0 - b.y1 * rescale / height as real,
         Width(b) * rescale / width as real, Height(b) * rescale / height as real)
  }

  /** Normalising the converted box gives the recogniser's rectangle back. */
  lemma CgRectRoundTrip(r: Rect, width: nat, height: nat, rescale: real)
    requires rescale > 0.0
    requires Asserted(r, width, height)
    ensures (AssertedImagePositive(r, width, height); Normalize(CgRectToBBox(r, width, height, rescale), width, height, rescale) == r)
  {
    AssertedImagePositive(r, width, height);
    var b := CgRectToBBox(r, width, height, rescale);
    var w, h := width as real, height as real;
    MulDivCancel(r.ox, w, rescale);
    MulDivCancel(1.0 - r.oy, h, rescale);
    MulDivCancel(r.w, w, rescale);
    MulDivCancel(r.h, h, rescale);
  }

  lemma MulDivCancel(a: real, w: real, f: real)
    requires w != 0.0 && f != 0.0
    ensures (a * w / f) * f / w == a
  {
    assert (a * w / f) * f == a * w;
  }

  /** `OCRLines::to_line`: the text and box, no rotation and no spans. */
  function ToLine(o: OcrLine): (l: Lines.Line)
    ensures l.text == o.text && l.bbox == o.bbox && l.rotation == 0.0 && l.spans == []
  {
    Lines.Line(o.text, o.bbox, 0.0, [])
  }

  function ToLines(os: seq<OcrLine>): (ls: seq<Lines.Line>)
    ensures |ls| == |os| && forall k :: 0 <= k < |os| ==> ls[k] == ToLine(os[k])
  {
    if |os| == 0 then [] else ToLines(os[..|os| - 1]) + [ToLine(os[|os| - 1])]
  }

  /** A region the conversion loop keeps: confident enough, and with a candidate. */
  predicate Kept(g: Region) { g.confidence > CONFIDENCE_THRESHOLD && g.top.Some? }

  /** Every kept region satisfies the conversion's assertions. */
  predicate Convertible(regions: seq<Region>, width: nat, height: nat)
  {
    forall k :: 0 <= k < |regions| && Kept(regions[k]) ==> Asserted(regions[k].rect, width, height)
  }

  function LineOf(g: Region, width: nat, height: nat, rescale: real): OcrLine
    requires rescale > 0.0 && Kept(g) && Asserted(g.rect, width, height)
  {
    OcrLine(g.top.value.text, g.top.value.confidence, CgRectToBBox(g.rect, width, height, rescale))
  }

  /** The lines built from the regions, in order. */
  function OcrLinesOf(regions: seq<Region>, width: nat, height: nat, rescale: real): seq<OcrLine>
    requires rescale > 0.0 && Convertible(regions, width, height)
  {
    if |regions| == 0 then []
    else
      var init := OcrLinesOf(regions[..|regions| - 1], width, height, rescale);
      var g := regions[|regions| - 1];
      if Kept(g) then init + [LineOf(g, width, height, rescale)] else init
  }

  /** The result loop of `parse_image_ocr`. */
  method CollectOcrLines(regions: seq<Region>, width: nat, height: nat, rescale: real) returns (lines: seq<OcrLine>)
    requires rescale > 0.0 && Convertible(regions, width, height)
    ensures lines == OcrLinesOf(regions, width, height, rescale)
  {
    lines := [];
    for n := 0 to |regions|
      invariant lines == OcrLinesOf(regions[..n], width, height, rescale)
    {
      assert regions[..n + 1][..n] == regions[..n];
      var g := regions[n];
      if g.confidence > CONFIDENCE_THRESHOLD {
        if g.top.Some? {
          var bbox := CgRectToBBox(g.rect, width, height, rescale);
          lines := lines + [OcrLine(g.top.value.text, g.top.value.confidence, bbox)];
        }
      }
    }
    assert regions[..|regions|] == regions;
  }

  /** Number of regions kept. */
  function KeptCount(regions: seq<Region>): nat
  {
    if |regions| == 0 then 0 else KeptCount(regions[..|regions| - 1]) + (if Kept(regions[|regions| - 1]) then 1 else 0)
  }

  /** `l` carries the text and confidence of a candidate of a region of positive confidence. */
  predicate FromRegion(l: OcrLine, regions: seq<Region>)
  {
    exists k :: 0 <= k < |regions| && regions[k].confidence > 0.0 && regions[k].top == Some(Candidate(l.text, l.confidence))
  }

  /** A proper box inside the image of the given size, divided by `rescale`. */
  predicate InPage(b: BBox, width: nat, height: nat, rescale: real)
    requires rescale > 0.0
  {
    b.x0 < b.x1 && b.y0 < b.y1 && b.x1 < width as real / rescale && b.y1 < height as real / rescale
  }

  /**
   * One line per kept region, and only for those: each line's text is a
   * candidate of a region of positive confidence, and its box is a proper
   * box inside the image divided by `rescale`.
   */
  lemma {:induction false} OcrLinesSpec(regions: seq<Region>, width: nat, height: nat, rescale: real)
    requires rescale > 0.0 && Convertible(regions, width, height)
    ensures var ls := OcrLinesOf(regions, width, height, rescale);
      |ls| == KeptCount(regions) && |ls| <= |regions|
      && forall i :: 0 <= i < |ls| ==> FromRegion(ls[i], regions) && InPage(ls[i].bbox, width, height, rescale)
  {
    if |regions| > 0 {
      var init := regions[..|regions| - 1];
      ConvertiblePrefix(regions, width, height);
      OcrLinesSpec(init, width, height, rescale);
      OcrLinesStep(regions, width, height, rescale);
    }
  }

  lemma ConvertiblePrefix(regions: seq<Region>, width: nat, height: nat)
    requires |regions| > 0 && Convertible(regions, width, height)
    ensures Convertible(regions[..|regions| - 1], width, height)
  {
    var init := regions[..|regions| - 1];
    forall k | 0 <= k < |init| && Kept(init[k]) ensures Asserted(init[k].rect, width, height) {
      assert init[k] == regions[k];
    }
  }

  /** The lines of the last region extend those of the others with the same guarantees. */
  lemma OcrLinesStep(regions: seq<Region>, width: nat, height: nat, rescale: real)
    requires rescale > 0.0 && |regions| > 0 && Convertible(regions, width, height)
    requires Convertible(regions[..|regions| - 1], width, height)
    requires var ls := OcrLinesOf(regions[..|regions| - 1], width, height, rescale);
      |ls| == KeptCount(regions[..|regions| - 1]) && |ls| <= |regions| - 1
      && forall i :: 0 <= i < |ls| ==> FromRegion(ls[i], regions[..|regions| - 1]) && InPage(ls[i].bbox, width, height, rescale)
    ensures var ls := OcrLinesOf(regions, width, height, rescale);
      |ls| == KeptCount(regions) && |ls| <= |regions|
      && forall i :: 0 <= i < |ls| ==> FromRegion(ls[i], regions) && InPage(ls[i].bbox, width, height, rescale)
  {
    var init := regions[..|regions| - 1];
    var prev := OcrLinesOf(init, width, height, rescale);
    var ls := OcrLinesOf(regions, width, height, rescale);
    forall i | 0 <= i < |ls| ensures FromRegion(ls[i], regions) && InPage(ls[i].bbox, width, height, rescale) {
      if i < |prev| {
        assert ls[i] == prev[i];
        var k :| 0 <= k < |init| && init[k].confidence > 0.0 && init[k].top == Some(Candidate(prev[i].text, prev[i].confidence));
        assert regions[k] == init[k];
      } else {
        var last := |regions| - 1;
        assert regions[last].top == Some(Candidate(ls[i].text, ls[i].confidence));
      }
    }
  }
}
