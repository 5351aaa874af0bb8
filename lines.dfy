/**
 * Grouping of spans into lines: a left fold that appends a span to the last
 * line unless the rotation changes, the span starts below the line, or the
 * span text ends a line; a line's text is cleaned once, when it is closed.
 */
module Lines {
  import opened Geometry
  import opened Spans
  import TextCleanup

  datatype Line = Line(text: string, bbox: BBox, rotation: real, spans: seq<CharSpan>)

  /**
   * The text step run when a line is closed: the current engine's whole
   * cleanup (with its ligature step), or the older engines' external
   * text fixer (a parameter).
   */
  function CloseText(g: Generation, text: string, fixLigatures: string -> string, fixText: string -> string): string
  {
    if g == Core then TextCleanup.FixText(text, fixLigatures) else fixText(text)
  }

  /** `Line::new_from_span`. */
  function NewFromSpan(s: CharSpan): (l: Line)
    ensures l.spans == [s] && l.text == s.text && l.bbox == s.bbox && l.rotation == s.rotation
  {
    Line(s.text, s.bbox, s.rotation, [s])
  }

  /** U+0002, which the PDF library reports at some line ends. */
  const STX: char := 2 as char

  predicate EndsWith(s: string, suffix: string)
  {
    |suffix| <= |s| && s[|s| - |suffix|..] == suffix
  }

  /** The test of `Line::append`: same rotation, not below the line, no line-ending text. */
  predicate Accepts(l: Line, s: CharSpan)
  {
    !(s.rotation != l.rotation || s.bbox.y0 > l.bbox.y1 || EndsWith(s.text, "\n") || EndsWith(s.text, [STX]))
  }

  /**
   * `Line::append` as the line's new value.  Rejection cleans the text and
   * changes nothing else.  Acceptance appends text and span; the box is
   * replaced when the line's box is degenerate (current engine), merged
   * (older engine), or left as it is (prototype).
   */
  function Append(g: Generation, l: Line, s: CharSpan, fixLigatures: string -> string, fixText: string -> string)
    : (r: Line)
    ensures !Accepts(l, s) ==> r == l.(text := CloseText(g, l.text, fixLigatures, fixText))
    ensures Accepts(l, s) ==> r.text == l.text + s.text && r.spans == l.spans + [s] && r.rotation == l.rotation
    ensures Accepts(l, s) && g == Entities ==> Contains(r.bbox, l.bbox) && Contains(r.bbox, s.bbox)
    ensures Accepts(l, s) && g == Lib ==> r.bbox == l.bbox
    ensures Accepts(l, s) && g == Core ==>
              (Contains(r.bbox, s.bbox) && (Height(l.bbox) != 0.0 && Width(l.bbox) != 0.0 ==> Contains(r.bbox, l.bbox)))
    ensures Accepts(l, s) && g == Core ==>
              r.bbox == (if Height(l.bbox) == 0.0 || Width(l.bbox) == 0.0 then s.bbox else Merge(l.bbox, s.bbox))
    ensures Accepts(l, s) && g == Entities ==> r.bbox == Merge(l.bbox, s.bbox)
  {
    if !Accepts(l, s) then l.(text := CloseText(g, l.text, fixLigatures, fixText))
    else
      var bbox :=
        if g == Core then (if Height(l.bbox) == 0.0 || Width(l.bbox) == 0.0 then s.bbox else Merge(l.bbox, s.bbox))
        else if g == Entities then Merge(l.bbox, s.bbox)
        else l.bbox;
      Line(l.text + s.text, bbox, l.rotation, l.spans + [s])
  }

  /** One span of the fold: start the first line, extend the last one, or close it and start another. */
  function PushSpan(g: Generation, lines: seq<Line>, s: CharSpan, fixLigatures: string -> string,
                    fixText: string -> string): (r: seq<Line>)
    ensures 0 < |r| <= |lines| + 1
  {
    if |lines| == 0 then [NewFromSpan(s)]
    else
      var l := Last(lines);
      var l' := Append(g, l, s, fixLigatures, fixText);
      if Accepts(l, s) then lines[|lines| - 1 := l']
      else lines[|lines| - 1 := l'] + [NewFromSpan(s)]
  }

  function LinesOf(g: Generation, spans: seq<CharSpan>, fixLigatures: string -> string, fixText: string -> string)
    : (lines: seq<Line>)
    ensures |lines| <= |spans|
    ensures |lines| == 0 <==> |spans| == 0
  {
    if |spans| == 0 then []
    else PushSpan(g, LinesOf(g, spans[..|spans| - 1], fixLigatures, fixText), Last(spans), fixLigatures, fixText)
  }

  /** `parse_text_lines`: the loop over the spans, extending or pushing lines. */
  method ParseTextLines(g: Generation, spans: seq<CharSpan>, fixLigatures: string -> string, fixText: string -> string)
    returns (lines: seq<Line>)
    ensures lines == LinesOf(g, spans, fixLigatures, fixText)
  {
    lines := [];
    for n := 0 to |spans|
      invariant lines == LinesOf(g, spans[..n], fixLigatures, fixText)
    {
      LinesOfSnoc(g, spans, n, fixLigatures, fixText);
      lines := PushSpanStep(g, lines, spans[n], fixLigatures, fixText);
    }
    assert spans[..|spans|] == spans;
  }

  lemma LinesOfSnoc(g: Generation, spans: seq<CharSpan>, n: nat, fixLigatures: string -> string, fixText: string -> string)
    requires n < |spans|
    ensures LinesOf(g, spans[..n + 1], fixLigatures, fixText)
            == PushSpan(g, LinesOf(g, spans[..n], fixLigatures, fixText), spans[n], fixLigatures, fixText)
  {
    assert spans[..n + 1][..n] == spans[..n];
    assert Last(spans[..n + 1]) == spans[n];
  }

  /** One turn of the loop: extend the last line when it accepts the span, else start a new one. */
  method PushSpanStep(g: Generation, lines: seq<Line>, s: CharSpan, fixLigatures: string -> string, fixText: string -> string)
    returns (r: seq<Line>)
    ensures r == PushSpan(g, lines, s, fixLigatures, fixText)
  {
    if |lines| == 0 {
      r := lines + [NewFromSpan(s)];
    } else {
      var l := lines[|lines| - 1];
      var accepted := Accepts(l, s);
      r := lines[|lines| - 1 := Append(g, l, s, fixLigatures, fixText)];
      if !accepted {
        r := r + [NewFromSpan(s)];
      }
    }
  }

  // ---------------------------------------------------------------------------
  // Properties
  // ---------------------------------------------------------------------------

  function AllSpans(lines: seq<Line>): seq<CharSpan>
  {
    if |lines| == 0 then [] else AllSpans(lines[..|lines| - 1]) + Last(lines).spans
  }

  /** The text a line's spans spell out. */
  function RawText(spans: seq<CharSpan>): string
  {
    SpanTexts(spans)
  }

  predicate NonEmptyLines(lines: seq<Line>)
  {
    forall k :: 0 <= k < |lines| ==> |lines[k].spans| > 0
  }

  predicate RotationsAgree(lines: seq<Line>)
  {
    forall k :: 0 <= k < |lines| ==>
      forall j :: 0 <= j < |lines[k].spans| ==> lines[k].spans[j].rotation == lines[k].rotation
  }

  /** Every line but the last was closed, so its text is the cleaned text of its spans. */
  predicate ClosedClean(g: Generation, lines: seq<Line>, fixLigatures: string -> string, fixText: string -> string)
  {
    forall k :: 0 <= k < |lines| - 1 ==> lines[k].text == CloseText(g, RawText(lines[k].spans), fixLigatures, fixText)
  }

  /** The open (last) line's text is the raw text of its spans. */
  predicate OpenRaw(lines: seq<Line>)
  {
    |lines| > 0 ==> Last(lines).text == RawText(Last(lines).spans)
  }

  /** Each line after the first starts with a span the line before it refused. */
  predicate BreaksRefused(lines: seq<Line>)
  {
    forall k :: 0 < k < |lines| ==> |lines[k].spans| > 0 && !Accepts(lines[k - 1], lines[k].spans[0])
  }

  /**
   * The shape the fold keeps: every line has spans of its own rotation; a
   * closed line's text is the cleaned text of its spans, the open (last)
   * line's text is their raw text; and each next line starts with a span the
   * line before it refused.
   */
  predicate WellGrouped(g: Generation, lines: seq<Line>, fixLigatures: string -> string, fixText: string -> string)
  {
    NonEmptyLines(lines) && RotationsAgree(lines) && ClosedClean(g, lines, fixLigatures, fixText)
    && OpenRaw(lines) && BreaksRefused(lines)
  }

  lemma AllSpansPushSpan(g: Generation, lines: seq<Line>, s: CharSpan, fixLigatures: string -> string,
                         fixText: string -> string)
    ensures AllSpans(PushSpan(g, lines, s, fixLigatures, fixText)) == AllSpans(lines) + [s]
  {
    var r := PushSpan(g, lines, s, fixLigatures, fixText);
    if |lines| == 0 {
      assert r[..0] == [];
    } else {
      var init := lines[..|lines| - 1];
      var l := Last(lines);
      if Accepts(l, s) {
        assert r[..|r| - 1] == init;
      } else {
        var closed := lines[|lines| - 1 := Append(g, l, s, fixLigatures, fixText)];
        assert r[..|r| - 1] == closed;
        assert closed[..|closed| - 1] == init;
        assert AllSpans(closed) == AllSpans(init) + l.spans;
        assert AllSpans(lines) == AllSpans(init) + l.spans;
      }
    }
  }

  /** Flattening the lines' spans gives the input spans in order: the lines partition the spans. */
  lemma {:induction false} LinesPartition(g: Generation, spans: seq<CharSpan>, fixLigatures: string -> string,
                                          fixText: string -> string)
    ensures AllSpans(LinesOf(g, spans, fixLigatures, fixText)) == spans
  {
    if |spans| > 0 {
      var init := spans[..|spans| - 1];
      LinesPartition(g, init, fixLigatures, fixText);
      AllSpansPushSpan(g, LinesOf(g, init, fixLigatures, fixText), Last(spans), fixLigatures, fixText);
      assert spans == init + [Last(spans)];
    }
  }

  lemma RawTextPush(spans: seq<CharSpan>, s: CharSpan)
    ensures RawText(spans + [s]) == RawText(spans) + s.text
  {
    assert (spans + [s])[..|spans|] == spans;
  }

  lemma NonEmptyPush(g: Generation, lines: seq<Line>, s: CharSpan, fixLigatures: string -> string,
                     fixText: string -> string)
    requires NonEmptyLines(lines)
    ensures NonEmptyLines(PushSpan(g, lines, s, fixLigatures, fixText))
  {
  }

  lemma RotationsPush(g: Generation, lines: seq<Line>, s: CharSpan, fixLigatures: string -> string,
                      fixText: string -> string)
    requires RotationsAgree(lines)
    ensures RotationsAgree(PushSpan(g, lines, s, fixLigatures, fixText))
  {
    var r := PushSpan(g, lines, s, fixLigatures, fixText);
    if |lines| > 0 && Accepts(Last(lines), s) {
      var m := |lines| - 1;
      forall k, j | 0 <= k < |r| && 0 <= j < |r[k].spans| ensures r[k].spans[j].rotation == r[k].rotation {
        if k == m && j < |lines[m].spans| {
          assert r[k].spans[j] == lines[m].spans[j];
        }
      }
    }
  }

  lemma ClosedCleanPush(g: Generation, lines: seq<Line>, s: CharSpan, fixLigatures: string -> string,
                        fixText: string -> string)
    requires ClosedClean(g, lines, fixLigatures, fixText) && OpenRaw(lines)
    ensures ClosedClean(g, PushSpan(g, lines, s, fixLigatures, fixText), fixLigatures, fixText)
  {
  }

  lemma OpenRawPush(g: Generation, lines: seq<Line>, s: CharSpan, fixLigatures: string -> string,
                    fixText: string -> string)
    requires OpenRaw(lines)
    ensures OpenRaw(PushSpan(g, lines, s, fixLigatures, fixText))
  {
    if |lines| == 0 || !Accepts(Last(lines), s) {
      RawTextPush([], s);
    } else {
      RawTextPush(Last(lines).spans, s);
    }
  }

  lemma BreaksPush(g: Generation, lines: seq<Line>, s: CharSpan, fixLigatures: string -> string,
                   fixText: string -> string)
    requires NonEmptyLines(lines) && BreaksRefused(lines)
    ensures BreaksRefused(PushSpan(g, lines, s, fixLigatures, fixText))
  {
    var r := PushSpan(g, lines, s, fixLigatures, fixText);
    if |lines| > 0 {
      var m := |lines| - 1;
      var l := lines[m];
      if Accepts(l, s) {
        forall k | 0 < k < |r| ensures |r[k].spans| > 0 && !Accepts(r[k - 1], r[k].spans[0]) {
          if k < m {
            assert r[k] == lines[k] && r[k - 1] == lines[k - 1];
          } else {
            assert r[k - 1] == lines[k - 1];
            assert r[m].spans[0] == l.spans[0];
          }
        }
      } else {
        forall k | 0 < k < |r| ensures |r[k].spans| > 0 && !Accepts(r[k - 1], r[k].spans[0]) {
          if k < m {
            assert r[k] == lines[k] && r[k - 1] == lines[k - 1];
          } else if k == m {
            assert r[k - 1] == lines[k - 1] && r[k].spans == l.spans;
          } else {
            assert r[k - 1].bbox == l.bbox && r[k - 1].rotation == l.rotation;
          }
        }
      }
    }
  }

  /**
   * Over the whole fold: non-empty lines, each line's spans share its
   * rotation, closed lines carry cleaned text and the last line raw text,
   * and each line break falls where `Line::append` refused.
   */
  lemma {:induction false} LinesWellGrouped(g: Generation, spans: seq<CharSpan>, fixLigatures: string -> string,
                                            fixText: string -> string)
    ensures WellGrouped(g, LinesOf(g, spans, fixLigatures, fixText), fixLigatures, fixText)
  {
    if |spans| > 0 {
      var init := spans[..|spans| - 1];
      LinesWellGrouped(g, init, fixLigatures, fixText);
      var prev := LinesOf(g, init, fixLigatures, fixText);
      var s := Last(spans);
      NonEmptyPush(g, prev, s, fixLigatures, fixText);
      RotationsPush(g, prev, s, fixLigatures, fixText);
      ClosedCleanPush(g, prev, s, fixLigatures, fixText);
      OpenRawPush(g, prev, s, fixLigatures, fixText);
      BreaksPush(g, prev, s, fixLigatures, fixText);
    }
  }

  /** Lines whose box is the box of their first span. */
  predicate BoxIsFirstSpan(lines: seq<Line>)
  {
    forall k :: 0 <= k < |lines| ==> |lines[k].spans| > 0 && lines[k].bbox == lines[k].spans[0].bbox
  }

  /** The prototype drops the merged box, so a line's box stays its first span's. */
  lemma {:induction false} LibLineBoxIsFirstSpan(spans: seq<CharSpan>, fixLigatures: string -> string,
                                                 fixText: string -> string)
    ensures BoxIsFirstSpan(LinesOf(Lib, spans, fixLigatures, fixText))
  {
    if |spans| > 0 {
      var init := spans[..|spans| - 1];
      LibLineBoxIsFirstSpan(init, fixLigatures, fixText);
      var prev := LinesOf(Lib, init, fixLigatures, fixText);
      var s := Last(spans);
      var lines := PushSpan(Lib, prev, s, fixLigatures, fixText);
      assert lines == LinesOf(Lib, spans, fixLigatures, fixText);
      if |prev| > 0 {
        var m := |prev| - 1;
        var l' := Append(Lib, prev[m], s, fixLigatures, fixText);
        assert l'.bbox == prev[m].bbox && l'.spans[0] == prev[m].spans[0];
        forall k | 0 <= k < |lines| ensures |lines[k].spans| > 0 && lines[k].bbox == lines[k].spans[0].bbox {
          if k < m {
            assert lines[k] == prev[k];
          } else if k == m {
            assert lines[k] == l';
          } else {
            assert lines[k] == NewFromSpan(s);
          }
        }
      }
    }
  }

  /** Lines whose box contains the box of each of their spans. */
  predicate BoxCoversSpans(lines: seq<Line>)
  {
    forall k :: 0 <= k < |lines| ==> forall j :: 0 <= j < |lines[k].spans| ==> Contains(lines[k].bbox, lines[k].spans[j].bbox)
  }

  lemma ContainsTransitive(a: BBox, b: BBox, c: BBox)
    requires Contains(a, b) && Contains(b, c)
    ensures Contains(a, c)
  {
  }

  /** Appending to a covering line in the older engine keeps it covering. */
  lemma EntitiesAppendCovers(l: Line, s: CharSpan, fixLigatures: string -> string, fixText: string -> string)
    requires forall j :: 0 <= j < |l.spans| ==> Contains(l.bbox, l.spans[j].bbox)
    ensures var r := Append(Entities, l, s, fixLigatures, fixText);
      forall j :: 0 <= j < |r.spans| ==> Contains(r.bbox, r.spans[j].bbox)
  {
    var r := Append(Entities, l, s, fixLigatures, fixText);
    if Accepts(l, s) {
      forall j | 0 <= j < |r.spans| ensures Contains(r.bbox, r.spans[j].bbox) {
        if j < |l.spans| {
          assert r.spans[j] == l.spans[j];
          ContainsTransitive(r.bbox, l.bbox, l.spans[j].bbox);
        }
      }
    }
  }

  /** In the older engine a line's box contains the box of every span in it. */
  lemma {:induction false} EntitiesLineBoxCovers(spans: seq<CharSpan>, fixLigatures: string -> string,
                                                 fixText: string -> string)
    ensures BoxCoversSpans(LinesOf(Entities, spans, fixLigatures, fixText))
  {
    if |spans| > 0 {
      var init := spans[..|spans| - 1];
      EntitiesLineBoxCovers(init, fixLigatures, fixText);
      var prev := LinesOf(Entities, init, fixLigatures, fixText);
      var s := Last(spans);
      var lines := PushSpan(Entities, prev, s, fixLigatures, fixText);
      assert lines == LinesOf(Entities, spans, fixLigatures, fixText);
      if |prev| > 0 {
        var m := |prev| - 1;
        EntitiesAppendCovers(prev[m], s, fixLigatures, fixText);
        var l' := Append(Entities, prev[m], s, fixLigatures, fixText);
        forall k | 0 <= k < |lines|
          ensures forall j :: 0 <= j < |lines[k].spans| ==> Contains(lines[k].bbox, lines[k].spans[j].bbox)
        {
          if k < m {
            assert lines[k] == prev[k];
          } else if k == m {
            assert lines[k] == l';
          } else {
            assert lines[k] == NewFromSpan(s);
          }
        }
      }
    }
  }
}
