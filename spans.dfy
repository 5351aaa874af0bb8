/**
 * Grouping of a page's characters into spans: a left fold that extends the
 * last span while the font and rotation stay the same, and starts a new span
 * otherwise.  Three generations of the engine share the loop and differ in
 * how a span's box and text are built.
 */
module Spans {
  import opened Wrappers
  import opened Geometry
  import TextCleanup

  /**
   * Core: the current engine.  Entities: the older engine.  Lib: the first
   * prototype, whose box merge returns a value the callers drop.
   */
  datatype Generation = Core | Entities | Lib

  /** A rectangle in PDF coordinates (origin at the bottom left). */
  datatype PdfRect = PdfRect(bottom: real, left: real, top: real, right: real)

  /** What the PDF library reports for one character. */
  datatype PdfChar = PdfChar(
    unicode: Option<char>, tight: PdfRect, loose: PdfRect,
    fontName: string, fontSize: real, fontWeight: Option<int>, rotation: real, index: nat)

  datatype CharSpan = CharSpan(
    bbox: BBox, text: string, rotation: real,
    fontName: string, fontSize: real, fontWeight: Option<int>,
    charStart: nat, charEnd: nat)

  /** The attributes that must agree for a character to join a span. */
  datatype FontKey = FontKey(size: real, name: string, weight: Option<int>, rotation: real)

  function CharKey(c: PdfChar): FontKey { FontKey(c.fontSize, c.fontName, c.fontWeight, c.rotation) }

  function SpanKey(s: CharSpan): FontKey { FontKey(s.fontSize, s.fontName, s.fontWeight, s.rotation) }

  function RectToBBox(r: PdfRect, pageHeight: real): BBox
  {
    FromPdfRect(r.bottom, r.left, r.top, r.right, pageHeight)
  }

  /**
   * The text a character contributes: its code point, or NUL when it has
   * none; the current engine runs it through the whole text cleanup.
   */
  function CharText(g: Generation, c: PdfChar, fixLigatures: string -> string): string
  {
    var raw := [if c.unicode.Some? then c.unicode.value else '\0'];
    if g == Core then TextCleanup.FixText(raw, fixLigatures) else raw
  }

  /**
   * `CharSpan::new_from_char`: the tight bounds flipped against the page;
   * the prototype flips against the page width instead of its height.
   */
  function NewFromChar(g: Generation, c: PdfChar, page: BBox, fixLigatures: string -> string): (s: CharSpan)
    ensures SpanKey(s) == CharKey(c)
    ensures s.charStart == c.index && s.charEnd == c.index
    ensures s.text == CharText(g, c, fixLigatures)
  {
    var flip := if g == Lib then Width(page) else Height(page);
    CharSpan(RectToBBox(c.tight, flip), CharText(g, c, fixLigatures), c.rotation,
             c.fontName, c.fontSize, c.fontWeight, c.index, c.index)
  }

  /**
   * `CharSpan::append`: refused (None) when size, name, weight or rotation
   * differ; otherwise the text grows, the end index moves, and the box is
   * merged with the character's box (loose bounds in the current engine,
   * tight before; dropped in the prototype).
   */
  function SpanAppend(g: Generation, s: CharSpan, c: PdfChar, page: BBox, fixLigatures: string -> string)
    : (r: Option<CharSpan>)
    ensures r.Some? <==> SpanKey(s) == CharKey(c)
    ensures r.Some? ==> SpanKey(r.value) == SpanKey(s) && r.value.charStart == s.charStart
                        && r.value.charEnd == c.index
                        && r.value.text == s.text + CharText(g, c, fixLigatures)
    ensures r.Some? && g != Lib ==> Contains(r.value.bbox, s.bbox)
    ensures r.Some? && g == Lib ==> r.value.bbox == s.bbox
  {
    if c.fontSize != s.fontSize || c.fontName != s.fontName || c.fontWeight != s.fontWeight
       || c.rotation != s.rotation
    then None
    else
      var charBox := RectToBBox(if g == Core then c.loose else c.tight, Height(page));
      var bbox := if g == Lib then s.bbox else Merge(s.bbox, charBox);
      Some(s.(text := s.text + CharText(g, c, fixLigatures), charEnd := c.index, bbox := bbox))
  }

  function Last<T>(s: seq<T>): T requires |s| > 0 { s[|s| - 1] }

  /** One character of the fold: start the first span, extend the last one, or start a new one. */
  function PushChar(g: Generation, spans: seq<CharSpan>, c: PdfChar, page: BBox, fixLigatures: string -> string)
    : (r: seq<CharSpan>)
    ensures 0 < |r| <= |spans| + 1
  {
    if |spans| == 0 then [NewFromChar(g, c, page, fixLigatures)]
    else
      match SpanAppend(g, Last(spans), c, page, fixLigatures)
      case Some(s) => spans[|spans| - 1 := s]
      case None => spans + [NewFromChar(g, c, page, fixLigatures)]
  }

  /** The grouping fold, over the characters read so far. */
  function SpansOf(g: Generation, chars: seq<PdfChar>, page: BBox, fixLigatures: string -> string)
    : (spans: seq<CharSpan>)
    ensures |spans| <= |chars|
    ensures |spans| == 0 <==> |chars| == 0
  {
    if |chars| == 0 then []
    else PushChar(g, SpansOf(g, chars[..|chars| - 1], page, fixLigatures), Last(chars), page, fixLigatures)
  }

  /** `parse_text_spans`: push a new span, or extend the last one in place. */
  method ParseTextSpans(g: Generation, chars: seq<PdfChar>, page: BBox, fixLigatures: string -> string)
    returns (spans: seq<CharSpan>)
    ensures spans == SpansOf(g, chars, page, fixLigatures)
  {
    spans := [];
    for n := 0 to |chars|
      invariant spans == SpansOf(g, chars[..n], page, fixLigatures)
    {
      SpansOfSnoc(g, chars, n, page, fixLigatures);
      spans := PushCharStep(g, spans, chars[n], page, fixLigatures);
    }
    assert chars[..|chars|] == chars;
  }

  /** The loop body of `parse_text_spans`. */
  method PushCharStep(g: Generation, spans: seq<CharSpan>, c: PdfChar, page: BBox, fixLigatures: string -> string)
    returns (next: seq<CharSpan>)
    ensures next == PushChar(g, spans, c, page, fixLigatures)
  {
    if |spans| == 0 {
      next := spans + [NewFromChar(g, c, page, fixLigatures)];
    } else {
      var appended := SpanAppend(g, spans[|spans| - 1], c, page, fixLigatures);
      if appended.Some? {
        next := spans[|spans| - 1 := appended.value];
      } else {
        next := spans + [NewFromChar(g, c, page, fixLigatures)];
      }
    }
  }

  lemma SpansOfSnoc(g: Generation, chars: seq<PdfChar>, n: nat, page: BBox, fixLigatures: string -> string)
    requires n < |chars|
    ensures SpansOf(g, chars[..n + 1], page, fixLigatures)
         == PushChar(g, SpansOf(g, chars[..n], page, fixLigatures), chars[n], page, fixLigatures)
  {
    assert chars[..n + 1][..n] == chars[..n];
  }

  // ---------------------------------------------------------------------------
  // Reference definition: maximal runs of characters with the same font key
  // ---------------------------------------------------------------------------

  function PushRun(runs: seq<seq<PdfChar>>, c: PdfChar): (r: seq<seq<PdfChar>>)
    ensures |r| > 0
  {
    if |runs| == 0 then [[c]]
    else if |Last(runs)| > 0 && CharKey(Last(runs)[0]) == CharKey(c) then runs[|runs| - 1 := Last(runs) + [c]]
    else runs + [[c]]
  }

  /** The characters split into runs; a run ends where the next character's key differs from its head's. */
  function Runs(chars: seq<PdfChar>): (runs: seq<seq<PdfChar>>)
    ensures |runs| == 0 <==> |chars| == 0
  {
    if |chars| == 0 then [] else PushRun(Runs(chars[..|chars| - 1]), Last(chars))
  }

  function Flatten<T>(runs: seq<seq<T>>): seq<T>
  {
    if |runs| == 0 then [] else Flatten(runs[..|runs| - 1]) + Last(runs)
  }

  predicate NonEmptyRuns(runs: seq<seq<PdfChar>>)
  {
    forall k :: 0 <= k < |runs| ==> |runs[k]| > 0
  }

  predicate SameKeyRuns(runs: seq<seq<PdfChar>>)
    requires NonEmptyRuns(runs)
  {
    forall k, j :: 0 <= k < |runs| && 0 <= j < |runs[k]| ==> CharKey(runs[k][j]) == CharKey(runs[k][0])
  }

  predicate KeyChanges(runs: seq<seq<PdfChar>>)
    requires NonEmptyRuns(runs)
  {
    forall k :: 0 < k < |runs| ==> CharKey(runs[k][0]) != CharKey(runs[k - 1][0])
  }

  /** Every run is non-empty and shares its head's key; consecutive heads differ. */
  predicate MaximalRuns(runs: seq<seq<PdfChar>>)
  {
    NonEmptyRuns(runs) && SameKeyRuns(runs) && KeyChanges(runs)
  }

  /** The span a run builds: a new span from its head, then one append per character. */
  function SpanOfRun(g: Generation, run: seq<PdfChar>, page: BBox, fixLigatures: string -> string): (s: CharSpan)
    requires |run| > 0 && forall j :: 0 <= j < |run| ==> CharKey(run[j]) == CharKey(run[0])
    ensures SpanKey(s) == CharKey(run[0])
  {
    if |run| == 1 then NewFromChar(g, run[0], page, fixLigatures)
    else
      var prev := SpanOfRun(g, run[..|run| - 1], page, fixLigatures);
      SpanAppend(g, prev, Last(run), page, fixLigatures).value
  }

  lemma FlattenPushRun(runs: seq<seq<PdfChar>>, c: PdfChar)
    ensures Flatten(PushRun(runs, c)) == Flatten(runs) + [c]
  {
    var r := PushRun(runs, c);
    if |runs| > 0 && |Last(runs)| > 0 && CharKey(Last(runs)[0]) == CharKey(c) {
      assert r[..|r| - 1] == runs[..|runs| - 1];
    } else {
      assert r[..|r| - 1] == runs;
    }
  }

  lemma MaximalPushRun(runs: seq<seq<PdfChar>>, c: PdfChar)
    requires MaximalRuns(runs)
    ensures MaximalRuns(PushRun(runs, c))
  {
    var r := PushRun(runs, c);
    assert NonEmptyRuns(r);
    if |runs| > 0 && CharKey(Last(runs)[0]) == CharKey(c) {
      assert SameKeyRuns(r) by {
        forall k, j | 0 <= k < |r| && 0 <= j < |r[k]| ensures CharKey(r[k][j]) == CharKey(r[k][0]) {
          if k < |runs| - 1 {
            assert r[k] == runs[k];
          }
        }
      }
      assert KeyChanges(r) by {
        forall k | 0 < k < |r| ensures CharKey(r[k][0]) != CharKey(r[k - 1][0]) {
          assert r[k - 1][0] == runs[k - 1][0] && r[k][0] == runs[k][0];
        }
      }
    } else {
      assert SameKeyRuns(r) by {
        forall k, j | 0 <= k < |r| && 0 <= j < |r[k]| ensures CharKey(r[k][j]) == CharKey(r[k][0]) {
          if k < |runs| {
            assert r[k] == runs[k];
          }
        }
      }
    }
  }

  /** The runs partition the characters in order and are maximal. */
  lemma {:induction false} RunsPartition(chars: seq<PdfChar>)
    ensures Flatten(Runs(chars)) == chars
    ensures MaximalRuns(Runs(chars))
  {
    if |chars| > 0 {
      var init := chars[..|chars| - 1];
      RunsPartition(init);
      assert chars == init + [Last(chars)];
      FlattenPushRun(Runs(init), Last(chars));
      MaximalPushRun(Runs(init), Last(chars));
    }
  }

  /** Spans correspond to runs one to one. */
  predicate BuiltFromRuns(g: Generation, spans: seq<CharSpan>, runs: seq<seq<PdfChar>>, page: BBox,
                          fixLigatures: string -> string)
    requires MaximalRuns(runs)
  {
    |spans| == |runs| && forall k :: 0 <= k < |runs| ==> spans[k] == SpanOfRun(g, runs[k], page, fixLigatures)
  }

  lemma PushBuilt(g: Generation, spans: seq<CharSpan>, runs: seq<seq<PdfChar>>, c: PdfChar, page: BBox,
                  fixLigatures: string -> string)
    requires MaximalRuns(runs) && BuiltFromRuns(g, spans, runs, page, fixLigatures)
    ensures MaximalRuns(PushRun(runs, c))
    ensures BuiltFromRuns(g, PushChar(g, spans, c, page, fixLigatures), PushRun(runs, c), page, fixLigatures)
  {
    MaximalPushRun(runs, c);
    if |runs| > 0 {
      var m := |runs| - 1;
      assert SpanKey(spans[m]) == CharKey(runs[m][0]);
      if CharKey(runs[m][0]) == CharKey(c) {
        PushBuiltExtend(g, spans, runs, c, page, fixLigatures);
      } else {
        PushBuiltNew(g, spans, runs, c, page, fixLigatures);
      }
    }
  }

  /** A character with the last run's key extends the last span and the last run alike. */
  lemma PushBuiltExtend(g: Generation, spans: seq<CharSpan>, runs: seq<seq<PdfChar>>, c: PdfChar, page: BBox,
                        fixLigatures: string -> string)
    requires MaximalRuns(runs) && BuiltFromRuns(g, spans, runs, page, fixLigatures) && MaximalRuns(PushRun(runs, c))
    requires |runs| > 0 && CharKey(runs[|runs| - 1][0]) == CharKey(c)
    ensures BuiltFromRuns(g, PushChar(g, spans, c, page, fixLigatures), PushRun(runs, c), page, fixLigatures)
  {
    var m := |runs| - 1;
    var r := PushRun(runs, c);
    var sp := PushChar(g, spans, c, page, fixLigatures);
    assert SpanKey(spans[m]) == CharKey(runs[m][0]);
    var run := runs[m] + [c];
    assert run[..|run| - 1] == runs[m];
    assert r == runs[m := run];
    assert sp[m] == SpanOfRun(g, run, page, fixLigatures);
    forall k | 0 <= k < |r| ensures sp[k] == SpanOfRun(g, r[k], page, fixLigatures) {
      if k < m {
        assert r[k] == runs[k] && sp[k] == spans[k];
      }
    }
  }

  /** A character with another key starts a new span and a new run alike. */
  lemma PushBuiltNew(g: Generation, spans: seq<CharSpan>, runs: seq<seq<PdfChar>>, c: PdfChar, page: BBox,
                     fixLigatures: string -> string)
    requires MaximalRuns(runs) && BuiltFromRuns(g, spans, runs, page, fixLigatures) && MaximalRuns(PushRun(runs, c))
    requires |runs| > 0 && CharKey(runs[|runs| - 1][0]) != CharKey(c)
    ensures BuiltFromRuns(g, PushChar(g, spans, c, page, fixLigatures), PushRun(runs, c), page, fixLigatures)
  {
    var m := |runs| - 1;
    var r := PushRun(runs, c);
    var sp := PushChar(g, spans, c, page, fixLigatures);
    assert SpanKey(spans[m]) == CharKey(runs[m][0]);
    assert r == runs + [[c]];
    assert sp == spans + [NewFromChar(g, c, page, fixLigatures)];
    forall k | 0 <= k < |r| ensures sp[k] == SpanOfRun(g, r[k], page, fixLigatures) {
      if k <= m {
        assert r[k] == runs[k] && sp[k] == spans[k];
      }
    }
  }


  /**
   * Each span is the one its run builds, so every character lands in exactly
   * one span, in order, and a new span starts exactly where the key changes.
   */
  lemma {:induction false} SpansAreRuns(g: Generation, chars: seq<PdfChar>, page: BBox, fixLigatures: string -> string)
    ensures MaximalRuns(Runs(chars))
    ensures BuiltFromRuns(g, SpansOf(g, chars, page, fixLigatures), Runs(chars), page, fixLigatures)
  {
    RunsPartition(chars);
    if |chars| > 0 {
      var init := chars[..|chars| - 1];
      SpansAreRuns(g, init, page, fixLigatures);
      PushBuilt(g, SpansOf(g, init, page, fixLigatures), Runs(init), Last(chars), page, fixLigatures);
    }
  }

  // ---------------------------------------------------------------------------
  // Text and boxes
  // ---------------------------------------------------------------------------

  function SpanTexts(spans: seq<CharSpan>): string
  {
    if |spans| == 0 then [] else SpanTexts(spans[..|spans| - 1]) + Last(spans).text
  }

  function CharTexts(g: Generation, chars: seq<PdfChar>, fixLigatures: string -> string): string
  {
    if |chars| == 0 then [] else CharTexts(g, chars[..|chars| - 1], fixLigatures) + CharText(g, Last(chars), fixLigatures)
  }

  lemma SpanTextsPush(g: Generation, spans: seq<CharSpan>, c: PdfChar, page: BBox, fixLigatures: string -> string)
    ensures SpanTexts(PushChar(g, spans, c, page, fixLigatures)) == SpanTexts(spans) + CharText(g, c, fixLigatures)
  {
    var r := PushChar(g, spans, c, page, fixLigatures);
    if |spans| == 0 {
      assert r[..0] == [];
    } else if SpanAppend(g, Last(spans), c, page, fixLigatures).Some? {
      var init := spans[..|spans| - 1];
      assert r[..|r| - 1] == init;
      assert SpanTexts(spans) == SpanTexts(init) + Last(spans).text;
    } else {
      assert r[..|r| - 1] == spans;
    }
  }

  /** The spans' texts, read in order, are the characters' texts in order. */
  lemma {:induction false} SpanTextsOfChars(g: Generation, chars: seq<PdfChar>, page: BBox, fixLigatures: string -> string)
    ensures SpanTexts(SpansOf(g, chars, page, fixLigatures)) == CharTexts(g, chars, fixLigatures)
  {
    if |chars| > 0 {
      var init := chars[..|chars| - 1];
      SpanTextsOfChars(g, init, page, fixLigatures);
      SpanTextsPush(g, SpansOf(g, init, page, fixLigatures), Last(chars), page, fixLigatures);
    }
  }

  /**
   * In the prototype a span's box stays its first character's box, flipped
   * against the page width.
   */
  lemma {:induction false} LibSpanBoxIsFirstChar(chars: seq<PdfChar>, page: BBox, fixLigatures: string -> string)
    ensures var spans := SpansOf(Lib, chars, page, fixLigatures);
      var runs := Runs(chars);
      |spans| == |runs| && NonEmptyRuns(runs)
      && forall k :: 0 <= k < |spans| ==> spans[k].bbox == RectToBBox(runs[k][0].tight, Width(page))
  {
    SpansAreRuns(Lib, chars, page, fixLigatures);
    var runs := Runs(chars);
    forall k | 0 <= k < |runs|
      ensures SpanOfRun(Lib, runs[k], page, fixLigatures).bbox == RectToBBox(runs[k][0].tight, Width(page))
    {
      RunBoxLib(runs[k], page, fixLigatures);
    }
  }

  lemma {:induction false} RunBoxLib(run: seq<PdfChar>, page: BBox, fixLigatures: string -> string)
    requires |run| > 0 && forall j :: 0 <= j < |run| ==> CharKey(run[j]) == CharKey(run[0])
    ensures SpanOfRun(Lib, run, page, fixLigatures).bbox == RectToBBox(run[0].tight, Width(page))
  {
    if |run| > 1 {
      var init := run[..|run| - 1];
      assert init[0] == run[0];
      RunBoxLib(init, page, fixLigatures);
    }
  }

  /** In the other generations a span's box contains every one of its characters' boxes. */
  lemma {:induction false} RunBoxCovers(g: Generation, run: seq<PdfChar>, page: BBox, fixLigatures: string -> string)
    requires g != Lib
    requires |run| > 0 && forall j :: 0 <= j < |run| ==> CharKey(run[j]) == CharKey(run[0])
    ensures var s := SpanOfRun(g, run, page, fixLigatures);
      Contains(s.bbox, RectToBBox(run[0].tight, Height(page)))
      && forall j :: 0 < j < |run| ==>
           Contains(s.bbox, RectToBBox(if g == Core then run[j].loose else run[j].tight, Height(page)))
  {
    if |run| > 1 {
      var init := run[..|run| - 1];
      assert init[0] == run[0];
      RunBoxCovers(g, init, page, fixLigatures);
      var prev := SpanOfRun(g, init, page, fixLigatures);
      var s := SpanOfRun(g, run, page, fixLigatures);
      MergeProperties(prev.bbox, RectToBBox(if g == Core then Last(run).loose else Last(run).tight, Height(page)));
      forall j | 0 < j < |run|
        ensures Contains(s.bbox, RectToBBox(if g == Core then run[j].loose else run[j].tight, Height(page)))
      {
        if j < |run| - 1 {
          assert run[j] == init[j];
        }
      }
    }
  }

  /**
   * The prototype's first character of a span is flipped against the page
   * width, so on a page that is not square its top edge lands at the wrong
   * height.
   */
  lemma LibFlipUsesWidth(c: PdfChar, page: BBox, fixLigatures: string -> string)
    requires Width(page) != Height(page)
    ensures NewFromChar(Lib, c, page, fixLigatures).bbox.y0 + c.tight.top == Width(page)
    ensures NewFromChar(Lib, c, page, fixLigatures).bbox.y0 + c.tight.top != Height(page)
  {
  }

  /** The other generations flip against the page height: y measured from the page top. */
  lemma FlipAgainstHeight(g: Generation, c: PdfChar, page: BBox, fixLigatures: string -> string)
    requires g != Lib
    ensures var b := NewFromChar(g, c, page, fixLigatures).bbox;
      b.y0 == Height(page) - c.tight.top && b.y1 == Height(page) - c.tight.bottom
      && b.x0 == c.tight.left && b.x1 == c.tight.right
  {
  }
}
