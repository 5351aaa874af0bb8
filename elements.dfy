/**
 * Page elements of the current engine: a layout region together with the
 * text of the lines assigned to it.
 */
module Elements {
  import opened Wrappers
  import opened Geometry
  import Layout

  datatype ElementType = Header | FootNote | Footer | Text | Title | Subtitle | ListItem | Caption | Image | Table

  datatype Element = Element(id: nat, layoutBlockId: int, text: string, kind: ElementType, pageId: nat, bbox: BBox)

  /** The element kind of a detector label; None for a label the detector does not produce. */
  function KindOfLabel(name: string): (r: Option<ElementType>)
    ensures r == Some(Header) <==> name == "Page-header"
    ensures r == Some(Footer) <==> name == "Page-footer"
    ensures r == Some(Text) <==> name == "Formula" || name == "Text"
  {
    if name == "Caption" then Some(Caption)
    else if name == "Formula" || name == "Text" then Some(Text)
    else if name == "List-item" then Some(ListItem)
    else if name == "Footnote" then Some(FootNote)
    else if name == "Page-footer" then Some(Footer)
    else if name == "Page-header" then Some(Header)
    else if name == "Title" then Some(Title)
    else if name == "Section-header" then Some(Subtitle)
    else if name == "Table" then Some(Table)
    else if name == "Picture" then Some(Image)
    else None
  }

  /** The labels with an element kind are exactly the detector's labels. */
  lemma KnownLabels(name: string)
    ensures KindOfLabel(name).Some? <==> name in Layout.ID2LABEL
  {
  }

  /** A region whose label has an element kind (any other label is unreachable in the engine). */
  predicate Known(b: Layout.LayoutBox) { KindOfLabel(b.category).Some? }

  predicate AllKnown(boxes: seq<Layout.LayoutBox>)
  {
    forall k :: 0 <= k < |boxes| ==> Known(boxes[k])
  }

  /** `Element::from_layout_block`: an empty element with the region's id, box and kind. */
  function FromLayoutBlock(id: nat, b: Layout.LayoutBox, pageId: nat): (e: Element)
    requires Known(b)
    ensures e.id == id && e.layoutBlockId == b.id && e.pageId == pageId && e.bbox == b.bbox && e.text == ""
    ensures Some(e.kind) == KindOfLabel(b.category)
  {
    Element(id, b.id, "", KindOfLabel(b.category).value, pageId, b.bbox)
  }

  /** `ElementText::append_line`: a space, then the line. */
  function AppendLine(text: string, line: string): (r: string)
    ensures |r| == |text| + 1 + |line| && r[..|text|] == text && r[|text|] == ' ' && r[|text| + 1..] == line
  {
    text + [' '] + line
  }

  /** The text of `Element::push_line`: the line alone into an empty text, else after a space. */
  function PushText(text: string, line: string): string
  {
    if text == "" then line else AppendLine(text, line)
  }

  function PushLine(e: Element, line: string): (r: Element)
  {
    e.(text := PushText(e.text, line))
  }

  /** The text after pushing each of `lines` in turn. */
  function Pushed(text: string, lines: seq<string>): string
  {
    if |lines| == 0 then text else PushText(Pushed(text, lines[..|lines| - 1]), lines[|lines| - 1])
  }

  /** The lines joined with single spaces. */
  function Join(lines: seq<string>): string
  {
    if |lines| == 0 then ""
    else if |lines| == 1 then lines[0]
    else AppendLine(Join(lines[..|lines| - 1]), lines[|lines| - 1])
  }

  /** The lines from the first non-empty one on. */
  function DropLeadingEmpty(lines: seq<string>): (r: seq<string>)
    ensures |r| > 0 ==> r[0] != ""
  {
    if |lines| == 0 then [] else if lines[0] == "" then DropLeadingEmpty(lines[1..]) else lines
  }

  lemma {:induction false} DropLeadingEmptyPush(lines: seq<string>, line: string)
    ensures DropLeadingEmpty(lines + [line])
            == if DropLeadingEmpty(lines) == [] then (if line == "" then [] else [line])
               else DropLeadingEmpty(lines) + [line]
  {
    if |lines| > 0 {
      assert (lines + [line])[1..] == lines[1..] + [line];
      if lines[0] == "" {
        DropLeadingEmptyPush(lines[1..], line);
      }
    } else {
      assert [line][1..] == [];
    }
  }

  lemma {:induction false} JoinStartsWithFirst(lines: seq<string>)
    requires |lines| > 0
    ensures |Join(lines)| >= |lines[0]| && Join(lines)[..|lines[0]|] == lines[0]
  {
    if |lines| > 1 {
      var init := lines[..|lines| - 1];
      JoinStartsWithFirst(init);
      assert init[0] == lines[0];
    }
  }

  lemma JoinPush(lines: seq<string>, line: string)
    requires |lines| > 0
    ensures Join(lines + [line]) == AppendLine(Join(lines), line)
  {
    assert (lines + [line])[..|lines|] == lines;
  }

  /**
   * Pushing lines into an empty element gives the lines joined with single
   * spaces, once the leading empty lines (which leave the text empty) are
   * skipped: with non-empty lines, exactly the space-joined lines.
   */
  lemma {:induction false} PushedIsJoin(lines: seq<string>)
    ensures Pushed("", lines) == Join(DropLeadingEmpty(lines))
  {
    if |lines| > 0 {
      var init := lines[..|lines| - 1];
      var line := lines[|lines| - 1];
      assert lines == init + [line];
      PushedIsJoin(init);
      DropLeadingEmptyPush(init, line);
      var d := DropLeadingEmpty(init);
      if d != [] {
        JoinStartsWithFirst(d);
        assert Join(d) != "";
        JoinPush(d, line);
      }
    }
  }

  /** With no empty line, the element text is the space-joined lines. */
  lemma PushedNonEmptyIsJoin(lines: seq<string>)
    requires forall k :: 0 <= k < |lines| ==> lines[k] != ""
    ensures Pushed("", lines) == Join(lines)
  {
    PushedIsJoin(lines);
    assert DropLeadingEmpty(lines) == lines;
  }
}
