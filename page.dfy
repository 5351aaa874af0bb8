/**
 * One page of the engine: deciding whether the native text layer covers the
 * detected text regions well enough, choosing the lines to work with, and
 * turning lines and regions into the page's elements.
 */
module Page {
  import opened Wrappers
  import opened Geometry
  import opened Layout
  import Lines
  import Elements
  import Merge
  import Vision

  /** Least ratio of native line area to text-region area for the native text to be trusted. */
  const MIN_LAYOUT_COVERAGE_THRESHOLD: real := 0.5

  // ---------------------------------------------------------------------------
  // page_needs_ocr
  // ---------------------------------------------------------------------------

  function LineArea(lines: seq<Lines.Line>): real
  {
    if |lines| == 0 then 0.0 else LineArea(lines[..|lines| - 1]) + Area(lines[|lines| - 1].bbox)
  }

  function BoxArea(boxes: seq<LayoutBox>): real
  {
    if |boxes| == 0 then 0.0 else BoxArea(boxes[..|boxes| - 1]) + Area(boxes[|boxes| - 1].bbox)
  }

  /** `page_needs_ocr`: the lines cover less than half the text regions, or there is no text region area. */
  predicate PageNeedsOcr(textBoxes: seq<LayoutBox>, lines: seq<Lines.Line>)
  {
    var boxArea := BoxArea(textBoxes);
    if boxArea > 0.0 then LineArea(lines) / boxArea < MIN_LAYOUT_COVERAGE_THRESHOLD else true
  }

  predicate LinesWellFormed(lines: seq<Lines.Line>)
  {
    forall k :: 0 <= k < |lines| ==> WellFormed(lines[k].bbox)
  }

  predicate BoxesWellFormed(boxes: seq<LayoutBox>)
  {
    forall k :: 0 <= k < |boxes| ==> WellFormed(boxes[k].bbox)
  }

  lemma {:induction false} LineAreaAppend(lines: seq<Lines.Line>, more: seq<Lines.Line>)
    ensures LineArea(lines + more) == LineArea(lines) + LineArea(more)
  {
    if |more| > 0 {
      var all := lines + more;
      assert all[..|all| - 1] == lines + more[..|more| - 1];
      LineAreaAppend(lines, more[..|more| - 1]);
    } else {
      assert lines + more == lines;
    }
  }

  lemma {:induction false} BoxAreaAppend(boxes: seq<LayoutBox>, more: seq<LayoutBox>)
    ensures BoxArea(boxes + more) == BoxArea(boxes) + BoxArea(more)
  {
    if |more| > 0 {
      var all := boxes + more;
      assert all[..|all| - 1] == boxes + more[..|more| - 1];
      BoxAreaAppend(boxes, more[..|more| - 1]);
    } else {
      assert boxes + more == boxes;
    }
  }

  lemma {:induction false} LineAreaNonNegative(lines: seq<Lines.Line>)
    requires LinesWellFormed(lines)
    ensures LineArea(lines) >= 0.0
  {
    if |lines| > 0 {
      var init := lines[..|lines| - 1];
      assert LinesWellFormed(init) by {
        forall k | 0 <= k < |init| ensures WellFormed(init[k].bbox) { assert init[k] == lines[k]; }
      }
      LineAreaNonNegative(init);
    }
  }

  lemma {:induction false} BoxAreaNonNegative(boxes: seq<LayoutBox>)
    requires BoxesWellFormed(boxes)
    ensures BoxArea(boxes) >= 0.0
  {
    if |boxes| > 0 {
      var init := boxes[..|boxes| - 1];
      assert BoxesWellFormed(init) by {
        forall k | 0 <= k < |init| ensures WellFormed(init[k].bbox) { assert init[k] == boxes[k]; }
      }
      BoxAreaNonNegative(init);
    }
  }

  /** With no text region area, OCR is always asked for; with some, exactly when the lines cover less than half of it. */
  lemma NeedsOcrSpec(textBoxes: seq<LayoutBox>, lines: seq<Lines.Line>)
    ensures BoxArea(textBoxes) <= 0.0 ==> PageNeedsOcr(textBoxes, lines)
    ensures BoxArea(textBoxes) > 0.0 ==>
      (PageNeedsOcr(textBoxes, lines) <==> LineArea(lines) < MIN_LAYOUT_COVERAGE_THRESHOLD * BoxArea(textBoxes))
  {
    var t := BoxArea(textBoxes);
    if t > 0.0 {
      RatioBelowIff(LineArea(lines), t, MIN_LAYOUT_COVERAGE_THRESHOLD);
    }
  }

  lemma RatioBelowIff(l: real, t: real, c: real)
    requires t > 0.0
    ensures l / t < c <==> l < c * t
  {
    var q := l / t;
    assert l == q * t;
    assert c * t - l == (c - q) * t;
    if q < c {
      assert (c - q) * t > 0.0;
    } else {
      assert (q - c) * t >= 0.0;
    }
  }

  /** No text region at all: OCR is asked for. */
  lemma NoTextBoxesNeedsOcr(lines: seq<Lines.Line>)
    ensures PageNeedsOcr([], lines)
  {
  }

  /** More native lines can only turn the answer from yes to no. */
  lemma MoreLinesLessOcr(textBoxes: seq<LayoutBox>, lines: seq<Lines.Line>, more: seq<Lines.Line>)
    requires LinesWellFormed(more)
    ensures PageNeedsOcr(textBoxes, lines + more) ==> PageNeedsOcr(textBoxes, lines)
  {
    LineAreaAppend(lines, more);
    LineAreaNonNegative(more);
    NeedsOcrSpec(textBoxes, lines);
    NeedsOcrSpec(textBoxes, lines + more);
  }

  /**
   * More text regions can only turn the answer from no to yes, once there is
   * some text region area to begin with (see NewTextBoxCanClearOcr).
   */
  lemma MoreBoxesMoreOcr(textBoxes: seq<LayoutBox>, more: seq<LayoutBox>, lines: seq<Lines.Line>)
    requires BoxArea(textBoxes) > 0.0 && BoxesWellFormed(more)
    ensures PageNeedsOcr(textBoxes, lines) ==> PageNeedsOcr(textBoxes + more, lines)
  {
    BoxAreaAppend(textBoxes, more);
    BoxAreaNonNegative(more);
    NeedsOcrSpec(textBoxes, lines);
    NeedsOcrSpec(textBoxes + more, lines);
  }

  /**
   * A page whose only line lies in no text region needs OCR, and stops
   * needing it once a region of positive area at most twice the line's is
   * found: without text area to start from, more regions can turn yes into no.
   */
  lemma NewTextBoxCanClearOcr(line: Lines.Line, box: LayoutBox)
    requires 0.0 < Area(box.bbox) <= 2.0 * Area(line.bbox)
    ensures PageNeedsOcr([], [line]) && !PageNeedsOcr([box], [line])
  {
    assert [line][..0] == [] && [box][..0] == [];
    assert LineArea([line]) == Area(line.bbox);
    assert BoxArea([box]) == Area(box.bbox);
    RatioBelowIff(Area(line.bbox), Area(box.bbox), MIN_LAYOUT_COVERAGE_THRESHOLD);
  }

  // ---------------------------------------------------------------------------
  // parse_page_text
  // ---------------------------------------------------------------------------

  /** The text regions of a page, in order. */
  function TextBoxes(boxes: seq<LayoutBox>): (r: seq<LayoutBox>)
    ensures |r| <= |boxes|
    ensures forall k :: 0 <= k < |r| ==> IsTextBlock(r[k]) && r[k] in boxes
    ensures forall b :: b in boxes && IsTextBlock(b) ==> b in r
  {
    if |boxes| == 0 then []
    else
      var init := TextBoxes(boxes[..|boxes| - 1]);
      var b := boxes[|boxes| - 1];
      assert boxes == boxes[..|boxes| - 1] + [b];
      if IsTextBlock(b) then init + [b] else init
  }

  /** What `parse_page_text` returns: the lines to use and whether OCR was asked for. */
  datatype PageText = PageText(lines: seq<Lines.Line>, needOcr: bool)

  /**
   * `parse_page_text`, with `ocr` the regions the recogniser would find on the
   * page image of `imgW` x `imgH` pixels (None for a failed recognition) and
   * `pageW` x `pageH` the page size in points. The regions are used only when
   * OCR is asked for, and their boxes are converted to page units.
   */
  function ParsePageText(native: seq<Lines.Line>, layout: seq<LayoutBox>, ocr: Option<seq<Vision.Region>>,
                         imgW: nat, imgH: nat, pageW: real, pageH: real): PageText
    requires pageW > 0.0 && pageH > 0.0
    requires ocr.Some? && PageNeedsOcr(TextBoxes(layout), native) ==> Vision.Convertible(ocr.value, imgW, imgH)
  {
    var need := PageNeedsOcr(TextBoxes(layout), native);
    if need && ocr.Some? then PageText(Vision.ToLines(OcrLines(ocr.value, imgW, imgH, pageW, pageH)), need)
    else PageText(native, need)
  }

  /**
   * The decision looks only at text regions; the recognised lines replace
   * the native ones exactly when OCR is asked for and succeeded, each as a
   * line with the recognised text and box, no rotation and no spans; the
   * decision is reported even when recognition failed.
   */
  lemma ParsePageTextSpec(native: seq<Lines.Line>, layout: seq<LayoutBox>, ocr: Option<seq<Vision.Region>>,
                          imgW: nat, imgH: nat, pageW: real, pageH: real)
    requires pageW > 0.0 && pageH > 0.0
    requires ocr.Some? && PageNeedsOcr(TextBoxes(layout), native) ==> Vision.Convertible(ocr.value, imgW, imgH)
    ensures var t := ParsePageText(native, layout, ocr, imgW, imgH, pageW, pageH);
      (t.needOcr <==> PageNeedsOcr(TextBoxes(layout), native))
      && (!t.needOcr || ocr.None? ==> t.lines == native)
      && (t.needOcr && ocr.Some? ==>
            var os := OcrLines(ocr.value, imgW, imgH, pageW, pageH);
            |t.lines| == |os|
            && forall k :: 0 <= k < |t.lines| ==>
                 t.lines[k].text == os[k].text && t.lines[k].bbox == os[k].bbox
                 && t.lines[k].rotation == 0.0 && t.lines[k].spans == [])
  {
  }

  /** Regions that are not text (pictures, tables) do not change the decision. */
  lemma {:induction false} NonTextIgnored(layout: seq<LayoutBox>, b: LayoutBox)
    requires !IsTextBlock(b)
    ensures TextBoxes(layout + [b]) == TextBoxes(layout)
  {
    assert (layout + [b])[..|layout|] == layout;
  }

  // ---------------------------------------------------------------------------
  // build_page_elements
  // ---------------------------------------------------------------------------

  /** The region ids the elements were built from, in order. */
  function LayoutIds(elements: seq<Elements.Element>): (ids: seq<int>)
    ensures |ids| == |elements| && forall k :: 0 <= k < |elements| ==> ids[k] == elements[k].layoutBlockId
  {
    if |elements| == 0 then [] else LayoutIds(elements[..|elements| - 1]) + [elements[|elements| - 1].layoutBlockId]
  }

  /** The regions whose id is not among `ids`, in order. */
  function Unmerged(boxes: seq<LayoutBox>, ids: seq<int>): (r: seq<LayoutBox>)
    ensures |r| <= |boxes|
    ensures forall k :: 0 <= k < |r| ==> r[k] in boxes && r[k].id !in ids
    ensures forall b :: b in boxes && b.id !in ids ==> b in r
    ensures Elements.AllKnown(boxes) ==> Elements.AllKnown(r)
  {
    if |boxes| == 0 then []
    else
      var init := Unmerged(boxes[..|boxes| - 1], ids);
      var b := boxes[|boxes| - 1];
      assert boxes == boxes[..|boxes| - 1] + [b];
      var r := if b.id in ids then init else init + [b];
      assert Elements.AllKnown(boxes) ==> Elements.AllKnown(r) by {
        if Elements.AllKnown(boxes) {
          forall k | 0 <= k < |r| ensures Elements.Known(r[k]) {
            var i :| 0 <= i < |boxes| && boxes[i] == r[k];
          }
        }
      }
      r
  }

  /** One region is kept exactly when no element has its id. */
  lemma UnmergedOne(b: LayoutBox, ids: seq<int>)
    ensures Unmerged([b], ids) == if b.id in ids then [] else [b]
  {
    assert [b][..0] == [];
  }

  /** The regions are filtered one by one, keeping their order and multiplicity. */
  lemma {:induction false} UnmergedAppend(a: seq<LayoutBox>, c: seq<LayoutBox>, ids: seq<int>)
    ensures Unmerged(a + c, ids) == Unmerged(a, ids) + Unmerged(c, ids)
  {
    if |c| == 0 {
      assert a + c == a;
    } else {
      var init := c[..|c| - 1];
      assert (a + c)[..|a + c| - 1] == a + init;
      assert (a + c)[|a + c| - 1] == c[|c| - 1];
      UnmergedAppend(a, init, ids);
    }
  }

  /** The elements of a page: the merged lines, then every region no line went to, inserted by position. */
  function PageElements(layout: seq<LayoutBox>, lines: seq<Lines.Line>, pageId: nat): seq<Elements.Element>
    requires Elements.AllKnown(layout)
  {
    var merged := Merge.MergedLines(layout, lines, pageId);
    Merge.InsertedAll(merged, Unmerged(layout, LayoutIds(merged)), pageId)
  }

  /** `build_page_elements`. */
  method BuildPageElements(layout: seq<LayoutBox>, lines: seq<Lines.Line>, pageId: nat) returns (elements: seq<Elements.Element>)
    requires Elements.AllKnown(layout)
    ensures elements == PageElements(layout, lines, pageId)
  {
    elements := Merge.MergeLinesLayout(layout, lines, pageId);
    var mergedIds := LayoutIds(elements);
    var unmerged := Unmerged(layout, mergedIds);
    elements := Merge.MergeRemaining(elements, unmerged, pageId);
  }

  /**
   * The regions the layout parse yields all carry a detector label, so the
   * `unreachable!` arm of `from_layout_block` is never taken on them.
   */
  lemma ParsedLayoutKnown(preds: seq<Prediction>, width: nat, height: nat, rescale: real)
    requires width > 0 && height > 0 && WellShaped(preds)
    ensures Elements.AllKnown(LayoutNms(Extracted(preds, width, height, rescale), IOU_THRESHOLD))
  {
    var ex := Extracted(preds, width, height, rescale);
    var out := LayoutNms(ex, IOU_THRESHOLD);
    ExtractedFacts(preds, width, height, rescale);
    LayoutNmsSorted(ex, IOU_THRESHOLD);
    forall k | 0 <= k < |out| ensures Elements.Known(out[k]) {
      assert out[k] in multiset(ex);
      var j :| 0 <= j < |ex| && ex[j] == out[k];
      Elements.KnownLabels(out[k].category);
    }
  }

  /**
   * Every region of the page is the region of some element, and there is
   * one element per merged region plus one per region no line went to.
   */
  lemma PageElementsSpec(layout: seq<LayoutBox>, lines: seq<Lines.Line>, pageId: nat)
    requires Elements.AllKnown(layout)
    ensures var merged := Merge.MergedLines(layout, lines, pageId);
      var es := PageElements(layout, lines, pageId);
      |es| == |merged| + |Unmerged(layout, LayoutIds(merged))|
      && forall k :: 0 <= k < |layout| ==> Merge.HasRegion(es, layout[k].id)
  {
    var merged := Merge.MergedLines(layout, lines, pageId);
    var ids := LayoutIds(merged);
    var rest := Unmerged(layout, ids);
    var es := PageElements(layout, lines, pageId);
    Merge.InsertedAllSpec(merged, rest, pageId);
    forall k | 0 <= k < |layout| ensures Merge.HasRegion(es, layout[k].id) {
      var b := layout[k];
      if b.id in ids {
        var i :| 0 <= i < |ids| && ids[i] == b.id;
        assert Merge.HasRegion(es, merged[i].layoutBlockId);
      } else {
        assert b in rest;
        var j :| 0 <= j < |rest| && rest[j] == b;
        assert Merge.HasRegion(es, rest[j].id);
      }
    }
  }

  // ---------------------------------------------------------------------------
  // Rendering scale
  // ---------------------------------------------------------------------------

  /** Scale from page points to the detector's rendering: the page fitted into its input. */
  function RescaleFactor(width: real, height: real): (r: real)
    requires width > 0.0 && height > 0.0
    ensures r > 0.0
  {
    Min(REQUIRED_HEIGHT / height, REQUIRED_WIDTH / width)
  }

  /** Scale from the rendering back to page points. */
  function DownscaleFactor(width: real, height: real): (d: real)
    requires width > 0.0 && height > 0.0
    ensures d > 0.0
  {
    1.0 / RescaleFactor(width, height)
  }

  // ---------------------------------------------------------------------------
  // The scale of the recognised boxes
  // ---------------------------------------------------------------------------

  /** The page image is the page rendered at the rescale factor, to the pixel. */
  predicate RenderedAt(imgW: nat, imgH: nat, pageW: real, pageH: real)
    requires pageW > 0.0 && pageH > 0.0
  {
    imgW as real == pageW * RescaleFactor(pageW, pageH) && imgH as real == pageH * RescaleFactor(pageW, pageH)
  }

  /**
   * The recognised lines as the engine computes them: `parse_image_ocr` is
   * handed the downscale factor, and `cgrect_to_bbox` divides the image
   * pixels by it.
   */
  function OcrLinesAsWritten(regions: seq<Vision.Region>, imgW: nat, imgH: nat, pageW: real, pageH: real): seq<Vision.OcrLine>
    requires pageW > 0.0 && pageH > 0.0 && Vision.Convertible(regions, imgW, imgH)
  {
    Vision.OcrLinesOf(regions, imgW, imgH, DownscaleFactor(pageW, pageH))
  }

  /**
   * As written, with the image rendered at scale `s` and the downscale factor
   * `1/s` passed, a recognised box has the region's share of the page's size
   * scaled by `s` twice, not page points.
   */
  lemma OcrBoxAsWritten(r: Vision.Rect, imgW: nat, imgH: nat, pageW: real, pageH: real, s: real)
    requires s > 0.0 && imgW as real == pageW * s && imgH as real == pageH * s
    requires Vision.Asserted(r, imgW, imgH)
    ensures var b := Vision.CgRectToBBox(r, imgW, imgH, 1.0 / s);
      Width(b) == r.w * pageW * s * s && Height(b) == r.h * pageH * s * s
  {
    var d := 1.0 / s;
    InverseProduct(s);
    var b := Vision.CgRectToBBox(r, imgW, imgH, d);
    ScaledTwice(r.w, imgW as real, pageW, s, d);
    ScaledTwice(r.h, imgH as real, pageH, s, d);
  }

  lemma InverseProduct(s: real)
    requires s > 0.0
    ensures 1.0 / s > 0.0 && s * (1.0 / s) == 1.0
  {
  }

  /** Dividing an image length by the inverse of the render scale scales the page length twice. */
  lemma ScaledTwice(a: real, img: real, page: real, s: real, d: real)
    requires s > 0.0 && s * d == 1.0 && img == page * s
    ensures a * img / d == a * page * s * s
  {
    assert d != 0.0;
    var q := a * page * s * s;
    assert q * d == a * page * s * (s * d);
    assert q * d == a * img;
  }

  /**
   * A page of 256 x 512 points is rendered at factor 2 into 512 x 1024
   * pixels; a region spanning the middle half of the image comes out 512
   * units wide and reaching x = 768, beyond the page's right edge at 256;
   * divided by the rescale factor it ends at x = 192, inside the page.
   */
  lemma OcrBoxOffPage()
    ensures RescaleFactor(256.0, 512.0) == 2.0 && RenderedAt(512, 1024, 256.0, 512.0)
    ensures var r := Vision.Rect(0.25, 0.25, 0.5, 0.5);
      Vision.Asserted(r, 512, 1024)
      && Vision.CgRectToBBox(r, 512, 1024, DownscaleFactor(256.0, 512.0)).x1 == 768.0
      && Vision.CgRectToBBox(r, 512, 1024, RescaleFactor(256.0, 512.0)).x1 == 192.0
  {
    assert DownscaleFactor(256.0, 512.0) == 0.5;
  }

  /**
   * The recognised lines in page points: the image pixels divided by the
   * factor the image was rendered at, the scale the layout regions are in.
   */
  function OcrLines(regions: seq<Vision.Region>, imgW: nat, imgH: nat, pageW: real, pageH: real): seq<Vision.OcrLine>
    requires pageW > 0.0 && pageH > 0.0 && Vision.Convertible(regions, imgW, imgH)
  {
    Vision.OcrLinesOf(regions, imgW, imgH, RescaleFactor(pageW, pageH))
  }

  /** Divided by the render scale `s` itself, a recognised box has the region's share of the page's size. */
  lemma OcrBoxInPageUnits(r: Vision.Rect, imgW: nat, imgH: nat, pageW: real, pageH: real, s: real)
    requires s > 0.0 && imgW as real == pageW * s && imgH as real == pageH * s
    requires Vision.Asserted(r, imgW, imgH)
    ensures var b := Vision.CgRectToBBox(r, imgW, imgH, s);
      Width(b) == r.w * pageW && Height(b) == r.h * pageH
  {
    var b := Vision.CgRectToBBox(r, imgW, imgH, s);
    assert r.w * imgW as real == (r.w * pageW) * s;
    assert r.h * imgH as real == (r.h * pageH) * s;
  }

  /** With the rescale factor, every recognised line's box is a proper box inside the page. */
  lemma OcrLinesInPage(regions: seq<Vision.Region>, imgW: nat, imgH: nat, pageW: real, pageH: real)
    requires pageW > 0.0 && pageH > 0.0 && RenderedAt(imgW, imgH, pageW, pageH) && Vision.Convertible(regions, imgW, imgH)
    ensures var ls := OcrLines(regions, imgW, imgH, pageW, pageH);
      forall i :: 0 <= i < |ls| ==>
        ls[i].bbox.x0 < ls[i].bbox.x1 && ls[i].bbox.y0 < ls[i].bbox.y1
        && ls[i].bbox.x1 < pageW && ls[i].bbox.y1 < pageH
  {
    var s := RescaleFactor(pageW, pageH);
    Vision.OcrLinesSpec(regions, imgW, imgH, s);
    assert imgW as real / s == pageW && imgH as real / s == pageH;
  }

  /**
   * The rendered page fits the detector's input, filling it along one side,
   * and the downscale factor undoes the rescale.
   */
  lemma RescaleFits(width: real, height: real)
    requires width > 0.0 && height > 0.0
    ensures var r := RescaleFactor(width, height);
      width * r <= REQUIRED_WIDTH && height * r <= REQUIRED_HEIGHT
      && (width * r == REQUIRED_WIDTH || height * r == REQUIRED_HEIGHT)
      && r * DownscaleFactor(width, height) == 1.0
  {
    var rw := REQUIRED_WIDTH / width;
    var rh := REQUIRED_HEIGHT / height;
    assert rw * width == REQUIRED_WIDTH;
    assert rh * height == REQUIRED_HEIGHT;
    if rh <= rw {
      Geometry.MulMonotone(width, rh, width, rw);
    } else {
      Geometry.MulMonotone(height, rw, height, rh);
    }
  }
}
