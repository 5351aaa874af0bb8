/**
 * Blocks and documents of the older engine: a block's kind carries its text,
 * lines are pushed into it, and a document renders its text blocks as
 * Markdown, page after page.
 */
module LegacyEntities {
  import opened Wrappers
  import opened Geometry
  import Elements
  import LegacyLayout

  /** The variants of a block kind that hold a text block. */
  datatype TextTag = Header | FootNote | Footer | Text | Title | Subtitle | ListItem | Caption

  /** A block kind: a text-bearing variant with its accumulated text, or an image or a table. */
  datatype BlockType = TextKind(tag: TextTag, text: string) | Image | Table

  datatype Block = Block(id: nat, layoutBlockId: nat, kind: BlockType, elements: seq<Block>, pageId: nat, bbox: BBox)

  datatype StructuredPage = StructuredPage(id: nat, width: real, height: real, needOcr: bool, blocks: seq<Block>)

  /** The kinds that carry text: all but Image and Table. */
  predicate HasText(k: BlockType) { k.TextKind? }

  /** `BlockType::is_text`: the kinds rendered into the document. */
  predicate IsText(k: BlockType)
  {
    k.TextKind? && k.tag in {Header, FootNote, Footer, Text, Title, Subtitle, ListItem}
  }

  /** Rendered kinds are exactly the text-bearing ones except captions. */
  lemma IsTextIsTextBearingButCaption(k: BlockType)
    ensures IsText(k) <==> HasText(k) && k.tag != Caption
  {
  }

  /** The kind of a detector label; None for a label the detector does not produce (a panic in the engine). */
  function KindOfLabel(name: string): (r: Option<BlockType>)
    ensures r.Some? <==> name in LegacyLayout.ID2LABEL
    ensures r.Some? && HasText(r.value) ==> r.value.text == ""
    ensures r == Some(TextKind(Text, "")) <==> name == "Formula" || name == "Text"
    ensures r == Some(Image) <==> name == "Picture"
    ensures r == Some(Table) <==> name == "Table"
  {
    if name == "Caption" then Some(TextKind(Caption, ""))
    else if name == "Formula" || name == "Text" then Some(TextKind(Text, ""))
    else if name == "List-item" then Some(TextKind(ListItem, ""))
    else if name == "Footnote" then Some(TextKind(FootNote, ""))
    else if name == "Page-footer" then Some(TextKind(Footer, ""))
    else if name == "Page-header" then Some(TextKind(Header, ""))
    else if name == "Title" then Some(TextKind(Title, ""))
    else if name == "Section-header" then Some(TextKind(Subtitle, ""))
    else if name == "Table" then Some(Table)
    else if name == "Picture" then Some(Image)
    else None
  }

  /**
   * `Block::from_layout_block`: an empty block of the label's kind, with no
   * children, on the given page, with the region's box and id.
   */
  function FromLayoutBlock(id: nat, layoutId: nat, b: LegacyLayout.LegacyBox, pageId: nat): (r: Block)
    requires b.category in LegacyLayout.ID2LABEL
    ensures r.id == id && r.layoutBlockId == layoutId && r.pageId == pageId && r.bbox == b.bbox
    ensures r.elements == [] && Some(r.kind) == KindOfLabel(b.category)
    ensures HasText(r.kind) ==> r.kind.text == ""
  {
    Block(id, layoutId, KindOfLabel(b.category).value, [], pageId, b.bbox)
  }

  /** `Block::push_line`: a text-bearing kind gets a space and the line appended (`TextBlock::append_line`); Image and Table are left as they are. */
  function PushLine(b: Block, line: string): (r: Block)
    ensures r.id == b.id && r.layoutBlockId == b.layoutBlockId && r.elements == b.elements
    ensures r.pageId == b.pageId && r.bbox == b.bbox
    ensures !HasText(b.kind) ==> r == b
    ensures HasText(b.kind) ==>
      r.kind == TextKind(b.kind.tag, b.kind.text + " " + line)
  {
    match b.kind
    case TextKind(tag, text) => b.(kind := TextKind(tag, Elements.AppendLine(text, line)))
    case _ => b
  }

  /** Pushing each of `lines` in turn. */
  function PushLines(b: Block, lines: seq<string>): (r: Block)
    ensures HasText(r.kind) == HasText(b.kind)
  {
    if |lines| == 0 then b else PushLine(PushLines(b, lines[..|lines| - 1]), lines[|lines| - 1])
  }

  /** Each line preceded by a space. */
  function Spaced(lines: seq<string>): string
  {
    if |lines| == 0 then "" else Spaced(lines[..|lines| - 1]) + " " + lines[|lines| - 1]
  }

  /**
   * Pushing lines into a text-bearing block appends each after a space, so a
   * fresh block's text starts with a space; Image and Table blocks never change.
   */
  lemma {:induction false} PushLinesText(b: Block, lines: seq<string>)
    ensures !HasText(b.kind) ==> PushLines(b, lines) == b
    ensures HasText(b.kind) ==> PushLines(b, lines).kind == TextKind(b.kind.tag, b.kind.text + Spaced(lines))
  {
    if |lines| > 0 {
      PushLinesText(b, lines[..|lines| - 1]);
      if HasText(b.kind) {
        assert b.kind.text + Spaced(lines) == b.kind.text + Spaced(lines[..|lines| - 1]) + " " + lines[|lines| - 1];
      }
    }
  }

  /** A fresh block's text after one or more lines begins with a space (unlike the current engine's elements). */
  lemma LeadingSpace(b: Block, lines: seq<string>)
    requires HasText(b.kind) && b.kind.text == "" && |lines| > 0
    ensures PushLines(b, lines).kind.text[0] == ' '
  {
    PushLinesText(b, lines);
    SpacedStartsWithSpace(lines);
  }

  lemma {:induction false} SpacedStartsWithSpace(lines: seq<string>)
    requires |lines| > 0
    ensures |Spaced(lines)| > 0 && Spaced(lines)[0] == ' '
  {
    if |lines| > 1 {
      SpacedStartsWithSpace(lines[..|lines| - 1]);
    }
  }

  // ---------------------------------------------------------------------------
  // Document rendering
  // ---------------------------------------------------------------------------

  /** The block filter of `render`: Text blocks or `is_text` ones. */
  predicate Rendered(k: BlockType) { (k.TextKind? && k.tag == Text) || IsText(k) }

  /** The Markdown of one block, empty for the kinds that are not rendered. */
  function RenderBlock(k: BlockType): string
  {
    if !Rendered(k) then ""
    else match k.tag
      case Title => "# " + k.text + "\n"
      case Subtitle => "# " + k.text + "\n"
      case Text => k.text + "\n"
      case ListItem => "- " + k.text + "\n"
      case _ => "\n"
  }

  /**
   * Headings for titles and subtitles, "- " for list items, the text for
   * text, an empty line for the other rendered kinds, and nothing for
   * captions, images and tables; every rendered block ends with a newline.
   */
  lemma RenderBlockCases(k: BlockType)
    ensures Rendered(k) <==> IsText(k)
    ensures !IsText(k) ==> RenderBlock(k) == ""
    ensures k.TextKind? && k.tag in {Title, Subtitle} ==> RenderBlock(k) == "# " + k.text + "\n"
    ensures k.TextKind? && k.tag == Text ==> RenderBlock(k) == k.text + "\n"
    ensures k.TextKind? && k.tag == ListItem ==> RenderBlock(k) == "- " + k.text + "\n"
    ensures k.TextKind? && k.tag in {Header, FootNote, Footer} ==> RenderBlock(k) == "\n"
    ensures IsText(k) ==> |RenderBlock(k)| > 0 && RenderBlock(k)[|RenderBlock(k)| - 1] == '\n'
  {
  }

  function RenderBlocks(blocks: seq<Block>): string
  {
    if |blocks| == 0 then "" else RenderBlocks(blocks[..|blocks| - 1]) + RenderBlock(blocks[|blocks| - 1].kind)
  }

  /** The document's Markdown, page after page. */
  function RenderPages(pages: seq<StructuredPage>): string
  {
    if |pages| == 0 then "" else RenderPages(pages[..|pages| - 1]) + RenderBlocks(pages[|pages| - 1].blocks)
  }

  /** `Document::render`: over the blocks of all pages, in order, the Markdown of each rendered one. */
  method Render(pages: seq<StructuredPage>) returns (output: string)
    ensures output == RenderPages(pages)
  {
    var blocks := AllBlocks(pages);
    output := "";
    var i := 0;
    while i < |blocks|
      invariant i <= |blocks|
      invariant output == RenderBlocks(blocks[..i])
    {
      var kind := blocks[i].kind;
      var piece := "";
      if Rendered(kind) {
        match kind.tag {
          case Title => piece := "# " + kind.text + "\n";
          case Subtitle => piece := "# " + kind.text + "\n";
          case Text => piece := kind.text + "\n";
          case ListItem => piece := "- " + kind.text + "\n";
          case _ => piece := "\n";
        }
      }
      assert piece == RenderBlock(kind);
      RenderBlocksSnoc(blocks, i);
      output := output + piece;
      i := i + 1;
    }
    assert blocks[..i] == blocks;
    RenderIsFlat(pages);
  }

  lemma RenderBlocksSnoc(blocks: seq<Block>, i: nat)
    requires i < |blocks|
    ensures RenderBlocks(blocks[..i + 1]) == RenderBlocks(blocks[..i]) + RenderBlock(blocks[i].kind)
  {
    assert blocks[..i + 1][..i] == blocks[..i];
  }

  /** Every block of every page, in page order. */
  function AllBlocks(pages: seq<StructuredPage>): seq<Block>
  {
    if |pages| == 0 then [] else AllBlocks(pages[..|pages| - 1]) + pages[|pages| - 1].blocks
  }

  lemma {:induction false} RenderBlocksAppend(a: seq<Block>, b: seq<Block>)
    ensures RenderBlocks(a + b) == RenderBlocks(a) + RenderBlocks(b)
  {
    if |b| > 0 {
      RenderBlocksAppend(a, b[..|b| - 1]);
      var c := a + b;
      assert c[..|c| - 1] == a + b[..|b| - 1] && c[|c| - 1] == b[|b| - 1];
      assert RenderBlocks(c) == RenderBlocks(a + b[..|b| - 1]) + RenderBlock(b[|b| - 1].kind);
    } else {
      assert a + b == a;
    }
  }

  /** Rendering page by page is rendering the flattened block sequence. */
  lemma {:induction false} RenderIsFlat(pages: seq<StructuredPage>)
    ensures RenderPages(pages) == RenderBlocks(AllBlocks(pages))
  {
    if |pages| > 0 {
      RenderIsFlat(pages[..|pages| - 1]);
      RenderBlocksAppend(AllBlocks(pages[..|pages| - 1]), pages[|pages| - 1].blocks);
    }
  }

  /** Only rendered kinds contribute text: dropping the other blocks does not change the output. */
  lemma {:induction false} OnlyTextRendered(blocks: seq<Block>)
    ensures RenderBlocks(blocks) == RenderBlocks(TextOnly(blocks))
  {
    if |blocks| > 0 {
      OnlyTextRendered(blocks[..|blocks| - 1]);
      var last := blocks[|blocks| - 1];
      if IsText(last.kind) {
        var t := TextOnly(blocks[..|blocks| - 1]);
        assert (t + [last])[..|t + [last]| - 1] == t;
      }
    }
  }

  /** The rendered blocks, in order. */
  function TextOnly(blocks: seq<Block>): (r: seq<Block>)
    ensures |r| <= |blocks| && forall k :: 0 <= k < |r| ==> IsText(r[k].kind)
  {
    if |blocks| == 0 then []
    else if IsText(blocks[|blocks| - 1].kind) then TextOnly(blocks[..|blocks| - 1]) + [blocks[|blocks| - 1]]
    else TextOnly(blocks[..|blocks| - 1])
  }

  /** Each rendered block contributes at least its closing newline. */
  lemma {:induction false} RenderedLength(blocks: seq<Block>)
    ensures |RenderBlocks(blocks)| >= |TextOnly(blocks)|
  {
    if |blocks| > 0 {
      RenderedLength(blocks[..|blocks| - 1]);
    }
  }
}
