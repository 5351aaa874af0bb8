/**
 * `merge_elements_into_blocks`: a pass over the page elements, each step
 * taking the current element and peeking at the ones after it, that turns
 * list-item runs into list blocks, pairs images with adjacent captions,
 * joins header and footer runs, and drops tables.
 */
module BlockBuilder {
  import opened Wrappers
  import opened Geometry
  import opened Elements
  import B = Blocks

  /**
   * The merge of one more element into a header or footer block.  The
   * current engine's block merge is not part of this model, so it is a
   * parameter; an error from it ends the whole pass.
   */
  type Join = (B.Block, Element) -> Result<B.Block, string>

  /** The join keeps a block's id and its kind of block. */
  ghost predicate KeepsIdAndKind(join: Join)
  {
    forall b, e :: join(b, e).Ok? ==> join(b, e).value.id == b.id && B.SameKind(join(b, e).value.kind, b.kind)
  }

  predicate IsCaptionKind(k: ElementType) { k == Caption || k == FootNote }

  /** Length of the run of elements with a kind in `kinds` at the front: how far a peek loop consumes. */
  function RunLength(els: seq<Element>, kinds: set<ElementType>): (n: nat)
    ensures n <= |els|
    ensures forall j :: 0 <= j < n ==> els[j].kind in kinds
    ensures n < |els| ==> els[n].kind !in kinds
  {
    if |els| == 0 || els[0].kind !in kinds then 0 else 1 + RunLength(els[1..], kinds)
  }

  /** A block made from one element: its id, kind, the element's page and box. */
  function NewBlock(id: nat, kind: B.BlockType, e: Element): B.Block
  {
    B.Block(id, kind, [e.pageId], e.bbox)
  }

  predicate AllListItems(run: seq<Element>)
  {
    forall j :: 0 <= j < |run| ==> run[j].kind == ListItem
  }

  /**
   * A list block after merging each element of a list-item run into it.  The
   * current engine's block merge is taken to behave as `Blocks.Merge` does on
   * a list block: append the item's text, grow the box, never fail.
   */
  function ListFold(b: B.Block, run: seq<Element>): (r: B.Block)
    requires b.kind.ListBlock? && AllListItems(run)
    ensures r.kind.ListBlock? && r.id == b.id && r.pagesId == b.pagesId
  {
    if |run| == 0 then b else B.Merge(ListFold(b, run[..|run| - 1]), run[|run| - 1]).value
  }

  /** A header or footer block after joining each element of a run into it; the first error stops it. */
  function JoinFold(b: B.Block, run: seq<Element>, join: Join): Result<B.Block, string>
  {
    if |run| == 0 then Ok(b)
    else match JoinFold(b, run[..|run| - 1], join)
      case Err(m) => Err(m)
      case Ok(b') => join(b', run[|run| - 1])
  }

  /** A caption's text after appending each following caption or footnote after a space. */
  function CaptionText(text: string, run: seq<Element>): string
  {
    if |run| == 0 then text else AppendLine(CaptionText(text, run[..|run| - 1]), run[|run| - 1].text)
  }

  /** What one step of the pass yields (an error, no block, or a block) and how many elements it consumed. */
  datatype Step = Step(out: Result<Option<B.Block>, string>, used: nat)

  function Emit(r: Result<B.Block, string>): Result<Option<B.Block>, string>
  {
    match r
    case Err(m) => Err(m)
    case Ok(b) => Ok(Some(b))
  }

  /** One step of the pass, on the elements from the current one on. */
  function NextBlock(els: seq<Element>, id: nat, join: Join): (s: Step)
    requires |els| > 0
    ensures 1 <= s.used <= |els|
  {
    var e := els[0];
    match e.kind
    case Text => Step(Ok(Some(NewBlock(id, B.TextBlock(e.text), e))), 1)
    case ListItem => ListStep(els, id)
    case FootNote | Caption => CaptionRunStep(els, id)
    case Image => ImageStep(els, id)
    case Header => JoinedStep(els, id, Header, B.Header(e.text), join)
    case Footer => JoinedStep(els, id, Footer, B.Footer(e.text), join)
    case Title | Subtitle => Step(Ok(Some(NewBlock(id, B.Title(0, e.text), e))), 1)
    case Table => Step(Ok(None), 1)
  }

  /** A list item and the list items after it become one list block. */
  function ListStep(els: seq<Element>, id: nat): (s: Step)
    requires |els| > 0
    ensures 1 <= s.used <= |els|
  {
    var rest := els[1..];
    var n := RunLength(rest, {ListItem});
    Step(Ok(Some(ListFold(NewBlock(id, B.ListBlock([els[0].text]), els[0]), rest[..n]))), 1 + n)
  }

  /** A caption run, attached to the image right after it when there is one. */
  function CaptionRunStep(els: seq<Element>, id: nat): (s: Step)
    requires |els| > 0
    ensures 1 <= s.used <= |els|
  {
    var e := els[0];
    var rest := els[1..];
    var n := RunLength(rest, {Caption, FootNote});
    var text := CaptionText(e.text, rest[..n]);
    if n < |rest| && rest[n].kind == Image then
      Step(Ok(Some(B.Block(id, B.Image(Some(text)), [rest[n].pageId], Merge(e.bbox, rest[n].bbox)))), n + 2)
    else Step(Ok(Some(NewBlock(id, B.TextBlock(text), e))), n + 1)
  }

  /** An image, with the caption or footnote right after it when there is one. */
  function ImageStep(els: seq<Element>, id: nat): (s: Step)
    requires |els| > 0
    ensures 1 <= s.used <= |els|
  {
    var e := els[0];
    if |els| > 1 && IsCaptionKind(els[1].kind) then
      Step(Ok(Some(B.Block(id, B.Image(Some(els[1].text)), [e.pageId], Merge(e.bbox, els[1].bbox)))), 2)
    else Step(Ok(Some(NewBlock(id, B.Image(None), e))), 1)
  }

  /** A header or footer and the run of the same kind after it, joined into one block. */
  function JoinedStep(els: seq<Element>, id: nat, kind: ElementType, bkind: B.BlockType, join: Join): (s: Step)
    requires |els| > 0
    ensures 1 <= s.used <= |els|
  {
    var rest := els[1..];
    var n := RunLength(rest, {kind});
    Step(Emit(JoinFold(NewBlock(id, bkind, els[0]), rest[..n], join)), 1 + n)
  }

  function Prepend(b: B.Block, r: Result<seq<B.Block>, string>): Result<seq<B.Block>, string>
  {
    match r
    case Err(m) => Err(m)
    case Ok(bs) => Ok([b] + bs)
  }

  function Concat(bs: seq<B.Block>, r: Result<seq<B.Block>, string>): Result<seq<B.Block>, string>
  {
    match r
    case Err(m) => Err(m)
    case Ok(more) => Ok(bs + more)
  }

  /** The blocks of the elements, numbered from `id`. */
  function BlocksFrom(els: seq<Element>, id: nat, join: Join): Result<seq<B.Block>, string>
    decreases |els|
  {
    if |els| == 0 then Ok([])
    else
      var s := NextBlock(els, id, join);
      match s.out
      case Err(m) => Err(m)
      case Ok(None) => BlocksFrom(els[s.used..], id, join)
      case Ok(Some(b)) => Prepend(b, BlocksFrom(els[s.used..], id + 1, join))
  }

  // ---------------------------------------------------------------------------
  // The loops
  // ---------------------------------------------------------------------------

  /** A run of elements ending where the peek stops is the run `RunLength` measures. */
  lemma {:induction false} RunLengthAt(els: seq<Element>, a: nat, j: nat, kinds: set<ElementType>)
    requires a <= j <= |els|
    requires forall t :: a <= t < j ==> els[t].kind in kinds
    requires j < |els| ==> els[j].kind !in kinds
    ensures RunLength(els[a..], kinds) == j - a
    decreases j - a
  {
    if a < j {
      RunLengthAt(els, a + 1, j, kinds);
      assert els[a..][1..] == els[a + 1..];
    }
  }

  /** The peek loop of a list block. */
  method AbsorbList(els: seq<Element>, start: nat, b: B.Block) returns (r: B.Block, j: nat)
    requires start <= |els| && b.kind.ListBlock?
    ensures start <= j <= |els| && j - start == RunLength(els[start..], {ListItem})
    ensures r == ListFold(b, els[start..j])
  {
    r, j := b, start;
    while j < |els| && els[j].kind == ListItem
      invariant start <= j <= |els| && AllListItems(els[start..j])
      invariant r == ListFold(b, els[start..j])
    {
      assert els[start..j + 1][..j - start] == els[start..j];
      r := B.Merge(r, els[j]).value;
      j := j + 1;
    }
    RunLengthAt(els, start, j, {ListItem});
  }

  /** The peek loop of a header or footer block. */
  method AbsorbJoined(els: seq<Element>, start: nat, b: B.Block, kind: ElementType, join: Join)
    returns (r: Result<B.Block, string>, j: nat)
    requires start <= |els|
    ensures start <= j <= |els| && j - start == RunLength(els[start..], {kind})
    ensures r == JoinFold(b, els[start..j], join)
  {
    j := start;
    r := Ok(b);
    while j < |els| && els[j].kind == kind
      invariant start <= j <= |els|
      invariant forall t :: start <= t < j ==> els[t].kind == kind
      invariant r == JoinFold(b, els[start..j], join)
    {
      assert els[start..j + 1][..j - start] == els[start..j];
      if r.Ok? {
        r := join(r.value, els[j]);
      }
      j := j + 1;
    }
    RunLengthAt(els, start, j, {kind});
  }

  /** The peek loop of a caption: following captions and footnotes are appended to its text. */
  method AbsorbCaptions(els: seq<Element>, start: nat, text: string) returns (r: string, j: nat)
    requires start <= |els|
    ensures start <= j <= |els| && j - start == RunLength(els[start..], {Caption, FootNote})
    ensures r == CaptionText(text, els[start..j])
  {
    r, j := text, start;
    while j < |els| && IsCaptionKind(els[j].kind)
      invariant start <= j <= |els|
      invariant forall t :: start <= t < j ==> els[t].kind in {Caption, FootNote}
      invariant r == CaptionText(text, els[start..j])
    {
      assert els[start..j + 1][..j - start] == els[start..j];
      r := AppendLine(r, els[j].text);
      j := j + 1;
    }
    RunLengthAt(els, start, j, {Caption, FootNote});
  }

  /** One iteration of the pass: the block (if any) for the element at `i`, and the elements consumed. */
  method NextBlockAt(els: seq<Element>, i: nat, id: nat, join: Join) returns (out: Result<Option<B.Block>, string>, used: nat)
    requires i < |els|
    ensures Step(out, used) == NextBlock(els[i..], id, join)
  {
    var e := els[i];
    assert els[i..][0] == e;
    match e.kind {
      case Text =>
        out, used := Ok(Some(NewBlock(id, B.TextBlock(e.text), e))), 1;
      case ListItem =>
        out, used := ListStepAt(els, i, id);
      case FootNote =>
        out, used := CaptionStep(els, i, id);
      case Caption =>
        out, used := CaptionStep(els, i, id);
      case Image =>
        out, used := ImageStepAt(els, i, id);
      case Header =>
        out, used := JoinedStepAt(els, i, id, Header, B.Header(e.text), join);
      case Footer =>
        out, used := JoinedStepAt(els, i, id, Footer, B.Footer(e.text), join);
      case Title =>
        out, used := Ok(Some(NewBlock(id, B.Title(0, e.text), e))), 1;
      case Subtitle =>
        out, used := Ok(Some(NewBlock(id, B.Title(0, e.text), e))), 1;
      case Table =>
        out, used := Ok(None), 1;
    }
  }

  /** The list-item branch: the run of list items folded into one list block. */
  method ListStepAt(els: seq<Element>, i: nat, id: nat) returns (out: Result<Option<B.Block>, string>, used: nat)
    requires i < |els|
    ensures Step(out, used) == ListStep(els[i..], id)
  {
    assert els[i..][1..] == els[i + 1..];
    var b, j := AbsorbList(els, i + 1, NewBlock(id, B.ListBlock([els[i].text]), els[i]));
    assert els[i + 1..][..j - (i + 1)] == els[i + 1..j];
    out, used := Ok(Some(b)), j - i;
  }

  /** The image branch: an image, captioned by the element after it when that is a caption or footnote. */
  method ImageStepAt(els: seq<Element>, i: nat, id: nat) returns (out: Result<Option<B.Block>, string>, used: nat)
    requires i < |els|
    ensures Step(out, used) == ImageStep(els[i..], id)
  {
    var e := els[i];
    if i + 1 < |els| && IsCaptionKind(els[i + 1].kind) {
      assert els[i..][1] == els[i + 1];
      out, used := Ok(Some(B.Block(id, B.Image(Some(els[i + 1].text)), [e.pageId], Merge(e.bbox, els[i + 1].bbox)))), 2;
    } else {
      out, used := Ok(Some(NewBlock(id, B.Image(None), e))), 1;
    }
  }

  /** The header and footer branches: the run of the same kind joined into one block. */
  method JoinedStepAt(els: seq<Element>, i: nat, id: nat, kind: ElementType, bkind: B.BlockType, join: Join)
    returns (out: Result<Option<B.Block>, string>, used: nat)
    requires i < |els|
    ensures Step(out, used) == JoinedStep(els[i..], id, kind, bkind, join)
  {
    assert els[i..][1..] == els[i + 1..];
    var r, j := AbsorbJoined(els, i + 1, NewBlock(id, bkind, els[i]), kind, join);
    assert els[i + 1..][..j - (i + 1)] == els[i + 1..j];
    out, used := Emit(r), j - i;
  }

  /** The caption branch: the caption run, then an image to attach it to, or a text block. */
  method CaptionStep(els: seq<Element>, i: nat, id: nat) returns (out: Result<Option<B.Block>, string>, used: nat)
    requires i < |els|
    ensures Step(out, used) == CaptionRunStep(els[i..], id)
  {
    var e := els[i];
    assert els[i..][1..] == els[i + 1..];
    var text, j := AbsorbCaptions(els, i + 1, e.text);
    assert els[i + 1..][..j - (i + 1)] == els[i + 1..j];
    if j < |els| && els[j].kind == Image {
      out, used := Ok(Some(B.Block(id, B.Image(Some(text)), [els[j].pageId], Merge(e.bbox, els[j].bbox)))), j - i + 1;
    } else {
      out, used := Ok(Some(NewBlock(id, B.TextBlock(text), e))), j - i;
    }
  }

  lemma ConcatNil(r: Result<seq<B.Block>, string>)
    ensures Concat([], r) == r
  {
    match r
    case Ok(bs) => assert [] + bs == bs;
    case Err(_) =>
  }

  lemma ConcatPrepend(bs: seq<B.Block>, b: B.Block, r: Result<seq<B.Block>, string>)
    ensures Concat(bs, Prepend(b, r)) == Concat(bs + [b], r)
  {
    match r
    case Ok(more) => assert bs + ([b] + more) == bs + [b] + more;
    case Err(_) =>
  }

  /** A failing step fails the whole pass. */
  lemma PassError(els: seq<Element>, i: nat, id: nat, join: Join, blocks: seq<B.Block>, m: string, u: nat)
    requires i < |els| && NextBlock(els[i..], id, join) == Step(Err(m), u)
    ensures Concat(blocks, BlocksFrom(els[i..], id, join)) == Err(m)
  {
  }

  /** A step without a block leaves the blocks and the id as they were. */
  lemma PassSkip(els: seq<Element>, i: nat, id: nat, join: Join, blocks: seq<B.Block>, u: nat)
    requires i < |els| && NextBlock(els[i..], id, join) == Step(Ok(None), u)
    ensures i + u <= |els|
    ensures Concat(blocks, BlocksFrom(els[i + u..], id, join)) == Concat(blocks, BlocksFrom(els[i..], id, join))
  {
    assert els[i..][u..] == els[i + u..];
  }

  /** A step with a block appends it and moves to the next id. */
  lemma PassBlock(els: seq<Element>, i: nat, id: nat, join: Join, blocks: seq<B.Block>, b: B.Block, u: nat)
    requires i < |els| && NextBlock(els[i..], id, join) == Step(Ok(Some(b)), u)
    ensures i + u <= |els|
    ensures Concat(blocks + [b], BlocksFrom(els[i + u..], id + 1, join)) == Concat(blocks, BlocksFrom(els[i..], id, join))
  {
    BlocksFromSome(els[i..], id, join, b, u);
    assert els[i..][u..] == els[i + u..];
    ConcatPrepend(blocks, b, BlocksFrom(els[i + u..], id + 1, join));
  }

  method MergeElementsIntoBlocks(elements: seq<Element>, join: Join) returns (r: Result<seq<B.Block>, string>)
    ensures r == BlocksFrom(elements, 0, join)
  {
    var blocks: seq<B.Block> := [];
    var blockId := 0;
    var i := 0;
    assert elements[0..] == elements;
    ConcatNil(BlocksFrom(elements, 0, join));
    while i < |elements|
      invariant 0 <= i <= |elements|
      invariant Concat(blocks, BlocksFrom(elements[i..], blockId, join)) == BlocksFrom(elements, 0, join)
      decreases |elements| - i
    {
      var failed;
      failed, blocks, blockId, i := PassTurn(elements, i, blockId, blocks, join);
      if failed.Some? {
        return Err(failed.value);
      }
    }
    assert Concat(blocks, Ok([])) == Ok(blocks + []);
    assert blocks + [] == blocks;
    r := Ok(blocks);
  }

  /**
   * One turn of the pass: the step at `i`, its block appended and the id
   * advanced when it yields one, or the error that ends the pass.
   */
  method PassTurn(elements: seq<Element>, i: nat, blockId: nat, blocks: seq<B.Block>, join: Join)
    returns (failed: Option<string>, blocks': seq<B.Block>, blockId': nat, next: nat)
    requires i < |elements|
    ensures i < next <= |elements|
    ensures failed.Some? ==> Concat(blocks, BlocksFrom(elements[i..], blockId, join)) == Err(failed.value)
    ensures failed.None? ==> Concat(blocks', BlocksFrom(elements[next..], blockId', join))
                             == Concat(blocks, BlocksFrom(elements[i..], blockId, join))
  {
    var out, used := NextBlockAt(elements, i, blockId, join);
    next := i + used;
    assert elements[next..] == elements[i + used..];
    match out {
      case Err(m) =>
        PassError(elements, i, blockId, join, blocks, m, used);
        failed, blocks', blockId' := Some(m), blocks, blockId;
      case Ok(None) =>
        PassSkip(elements, i, blockId, join, blocks, used);
        failed, blocks', blockId' := None, blocks, blockId;
      case Ok(Some(b)) =>
        PassBlock(elements, i, blockId, join, blocks, b, used);
        failed, blocks', blockId' := None, blocks + [b], blockId + 1;
    }
  }

  // ---------------------------------------------------------------------------
  // Properties
  // ---------------------------------------------------------------------------

  function Texts(els: seq<Element>): (r: seq<string>)
    ensures |r| == |els| && forall k :: 0 <= k < |els| ==> r[k] == els[k].text
  {
    if |els| == 0 then [] else [els[0].text] + Texts(els[1..])
  }

  lemma TextsCons(els: seq<Element>)
    requires |els| > 0
    ensures Texts(els) == [els[0].text] + Texts(els[1..])
  {
  }

  /** The box `Merge` grows from `start` over the boxes of `els`. */
  function Covering(start: BBox, els: seq<Element>): BBox
  {
    if |els| == 0 then start else Merge(Covering(start, els[..|els| - 1]), els[|els| - 1].bbox)
  }

  /** `Covering` is the union box: it contains `start` and every element's box, and lies in any box that does. */
  lemma {:induction false} CoveringIsUnion(start: BBox, els: seq<Element>)
    ensures Contains(Covering(start, els), start)
    ensures forall k :: 0 <= k < |els| ==> Contains(Covering(start, els), els[k].bbox)
    ensures forall c :: Contains(c, start) && (forall k :: 0 <= k < |els| ==> Contains(c, els[k].bbox))
                        ==> Contains(c, Covering(start, els))
  {
    if |els| > 0 {
      var init := els[..|els| - 1];
      CoveringIsUnion(start, init);
      forall c | Contains(c, start) && (forall k :: 0 <= k < |els| ==> Contains(c, els[k].bbox))
        ensures Contains(c, Covering(start, els))
      {
        assert forall k :: 0 <= k < |init| ==> Contains(c, init[k].bbox) by {
          forall k | 0 <= k < |init| ensures Contains(c, init[k].bbox) {
            assert init[k] == els[k];
          }
        }
      }
      forall k | 0 <= k < |els| ensures Contains(Covering(start, els), els[k].bbox) {
        if k < |init| {
          assert init[k] == els[k];
        }
      }
    }
  }

  /** A list fold adds the run's texts as items and grows the box over the run. */
  lemma {:induction false} ListFoldSpec(b: B.Block, run: seq<Element>)
    requires b.kind.ListBlock? && AllListItems(run)
    ensures ListFold(b, run) == B.Block(b.id, B.ListBlock(b.kind.items + Texts(run)), b.pagesId, Covering(b.bbox, run))
  {
    if |run| > 0 {
      var init := run[..|run| - 1];
      ListFoldSpec(b, init);
      assert b.kind.items + Texts(init) + [run[|run| - 1].text] == b.kind.items + Texts(run);
    }
  }

  /** The caption text is the caption and the texts after it, joined with single spaces. */
  lemma {:induction false} CaptionTextIsJoin(text: string, run: seq<Element>)
    ensures CaptionText(text, run) == Elements.Join([text] + Texts(run))
  {
    if |run| > 0 {
      var init := run[..|run| - 1];
      CaptionTextIsJoin(text, init);
      TextsPrefix(text, run);
      var all := [text] + Texts(run);
      var n := |run|;
      assert |all| == n + 1;
      assert Elements.Join(all) == AppendLine(Elements.Join(all[..n]), all[n]);
      assert CaptionText(text, run) == AppendLine(CaptionText(text, init), run[n - 1].text);
    }
  }

  /** Dropping the last element of the run drops the last text of the list. */
  lemma TextsPrefix(text: string, run: seq<Element>)
    requires |run| > 0
    ensures ([text] + Texts(run))[..|run|] == [text] + Texts(run[..|run| - 1])
    ensures ([text] + Texts(run))[|run|] == run[|run| - 1].text
  {
    var all := [text] + Texts(run);
    var init := run[..|run| - 1];
    var shorter := [text] + Texts(init);
    forall k | 0 <= k < |run| ensures all[k] == shorter[k] {
      if k > 0 {
        assert all[k] == Texts(run)[k - 1] == run[k - 1].text;
        assert shorter[k] == Texts(init)[k - 1] == init[k - 1].text;
      }
    }
  }

  /** Every element kind but Table yields a block. */
  function NonTables(els: seq<Element>): nat
  {
    if |els| == 0 then 0 else (if els[0].kind == Table then 0 else 1) + NonTables(els[1..])
  }

  lemma {:induction false} NonTablesDrop(els: seq<Element>, u: nat)
    requires 1 <= u <= |els|
    ensures NonTables(els[u..]) + (if els[0].kind == Table then 0 else 1) <= NonTables(els)
    decreases u
  {
    if u > 1 {
      NonTablesDrop(els[1..], u - 1);
      assert els[1..][u - 1..] == els[u..];
    }
  }

  lemma JoinFoldKeeps(b: B.Block, run: seq<Element>, join: Join)
    requires KeepsIdAndKind(join)
    ensures JoinFold(b, run, join).Ok? ==> JoinFold(b, run, join).value.id == b.id
                                           && B.SameKind(JoinFold(b, run, join).value.kind, b.kind)
  {
    if |run| > 0 {
      JoinFoldKeeps(b, run[..|run| - 1], join);
    }
  }

  /** The block of one step has the step's id and is never a table. */
  lemma NextBlockShape(els: seq<Element>, id: nat, join: Join)
    requires |els| > 0 && KeepsIdAndKind(join)
    ensures var s := NextBlock(els, id, join);
      (s.out == Ok(None) <==> els[0].kind == Table)
      && (s.out.Ok? && s.out.value.Some? ==> s.out.value.value.id == id && !s.out.value.value.kind.Table?)
  {
    var rest := els[1..];
    match els[0].kind
    case Header =>
      JoinFoldKeeps(NewBlock(id, B.Header(els[0].text), els[0]), rest[..RunLength(rest, {Header})], join);
    case Footer =>
      JoinFoldKeeps(NewBlock(id, B.Footer(els[0].text), els[0]), rest[..RunLength(rest, {Footer})], join);
    case _ =>
  }

  /**
   * Over the whole pass: the blocks are numbered id, id + 1, ... in output
   * order, none is a table, and there are at most as many as there are
   * elements other than tables.
   */
  lemma {:induction false} BlocksFromShape(els: seq<Element>, id: nat, join: Join)
    requires KeepsIdAndKind(join)
    ensures var r := BlocksFrom(els, id, join);
      r.Ok? ==> |r.value| <= NonTables(els)
                && (forall k :: 0 <= k < |r.value| ==> r.value[k].id == id + k && !r.value[k].kind.Table?)
    decreases |els|
  {
    if |els| > 0 {
      var s := NextBlock(els, id, join);
      NextBlockShape(els, id, join);
      NonTablesDrop(els, s.used);
      match s.out
      case Err(_) =>
      case Ok(None) =>
        BlocksFromShape(els[s.used..], id, join);
      case Ok(Some(b)) =>
        BlocksFromShape(els[s.used..], id + 1, join);
    }
  }

  /** Block ids of a whole page run 0, 1, 2, ... */
  lemma BlockIds(elements: seq<Element>, join: Join)
    requires KeepsIdAndKind(join)
    ensures var r := BlocksFrom(elements, 0, join);
      r.Ok? ==> |r.value| <= |elements| && forall k :: 0 <= k < |r.value| ==> r.value[k].id == k
  {
    BlocksFromShape(elements, 0, join);
    NonTablesAtMost(elements);
  }

  lemma {:induction false} NonTablesAtMost(els: seq<Element>)
    ensures NonTables(els) <= |els|
  {
    if |els| > 0 {
      NonTablesAtMost(els[1..]);
    }
  }

  /** A table element yields nothing; the pass goes on with the next element and the same id. */
  lemma TableSkipped(els: seq<Element>, id: nat, join: Join)
    requires |els| > 0 && els[0].kind == Table
    ensures BlocksFrom(els, id, join) == BlocksFrom(els[1..], id, join)
  {
  }

  /** A text element yields exactly one text block with its text, page and box. */
  lemma TextOneToOne(t: Element, rest: seq<Element>, id: nat, join: Join)
    requires t.kind == Text
    ensures BlocksFrom([t] + rest, id, join)
            == Prepend(B.Block(id, B.TextBlock(t.text), [t.pageId], t.bbox), BlocksFrom(rest, id + 1, join))
  {
    assert ([t] + rest)[1..] == rest;
  }

  /** A title or section header yields a title block of level 0. */
  lemma TitleLevelZero(t: Element, rest: seq<Element>, id: nat, join: Join)
    requires t.kind == Title || t.kind == Subtitle
    ensures BlocksFrom([t] + rest, id, join)
            == Prepend(B.Block(id, B.Title(0, t.text), [t.pageId], t.bbox), BlocksFrom(rest, id + 1, join))
  {
    assert ([t] + rest)[1..] == rest;
  }

  /**
   * A maximal run of list items yields one list block: the items are the
   * run's texts in order, the page is the first item's, and the box is the
   * union of the run's boxes.  The element after the run starts the next block.
   */
  lemma ListRunBlock(run: seq<Element>, rest: seq<Element>, id: nat, join: Join)
    requires |run| > 0 && AllListItems(run) && (|rest| > 0 ==> rest[0].kind != ListItem)
    ensures BlocksFrom(run + rest, id, join)
            == Prepend(B.Block(id, B.ListBlock(Texts(run)), [run[0].pageId], Covering(run[0].bbox, run[1..])),
                       BlocksFrom(rest, id + 1, join))
  {
    var els := run + rest;
    var blk := B.Block(id, B.ListBlock(Texts(run)), [run[0].pageId], Covering(run[0].bbox, run[1..]));
    ListRunStep(run, rest, id);
    assert els[0] == run[0];
    BlocksFromSome(els, id, join, blk, |run|);
    assert els[|run|..] == rest;
  }

  /** The list step on a maximal run: the block of `ListRunBlock`, consuming the run. */
  lemma ListRunStep(run: seq<Element>, rest: seq<Element>, id: nat)
    requires |run| > 0 && AllListItems(run) && (|rest| > 0 ==> rest[0].kind != ListItem)
    ensures ListStep(run + rest, id)
            == Step(Ok(Some(B.Block(id, B.ListBlock(Texts(run)), [run[0].pageId], Covering(run[0].bbox, run[1..])))), |run|)
  {
    var els := run + rest;
    RunLengthAt(els, 1, |run|, {ListItem});
    assert els[1..][..|run| - 1] == run[1..];
    ListFoldSpec(NewBlock(id, B.ListBlock([run[0].text]), run[0]), run[1..]);
    TextsCons(run);
  }

  /** A step that yields a block puts it in front of the blocks of what it left. */
  lemma BlocksFromSome(els: seq<Element>, id: nat, join: Join, b: B.Block, u: nat)
    requires |els| > 0 && NextBlock(els, id, join) == Step(Ok(Some(b)), u)
    ensures u <= |els| && BlocksFrom(els, id, join) == Prepend(b, BlocksFrom(els[u..], id + 1, join))
  {
  }

  /**
   * A caption (or footnote) run followed by an image yields one image block
   * captioned with the run's texts joined by spaces, on the image's page,
   * whose box covers the first caption and the image.
   */
  lemma CaptionThenImage(caps: seq<Element>, img: Element, rest: seq<Element>, id: nat, join: Join)
    requires |caps| > 0 && (forall k :: 0 <= k < |caps| ==> IsCaptionKind(caps[k].kind)) && img.kind == Image
    ensures BlocksFrom(caps + [img] + rest, id, join)
            == Prepend(B.Block(id, B.Image(Some(Elements.Join(Texts(caps)))), [img.pageId], Merge(caps[0].bbox, img.bbox)),
                       BlocksFrom(rest, id + 1, join))
  {
    var els := caps + [img] + rest;
    var text := CaptionText(caps[0].text, caps[1..]);
    CaptionRun(caps, [img] + rest, id);
    assert els == caps + ([img] + rest) && ([img] + rest)[0] == img;
    assert els[0] == caps[0];
    CaptionTextIsJoin(caps[0].text, caps[1..]);
    TextsCons(caps);
    BlocksFromSome(els, id, join, B.Block(id, B.Image(Some(text)), [img.pageId], Merge(caps[0].bbox, img.bbox)), |caps| + 1);
    assert els[|caps| + 1..] == rest;
  }

  /**
   * A caption run followed by anything but an image, or by nothing, yields
   * a text block of the joined texts with the first caption's page and box;
   * the element after the run is left for the next step.
   */
  lemma CaptionAlone(caps: seq<Element>, rest: seq<Element>, id: nat, join: Join)
    requires |caps| > 0 && forall k :: 0 <= k < |caps| ==> IsCaptionKind(caps[k].kind)
    requires |rest| > 0 ==> rest[0].kind != Image && !IsCaptionKind(rest[0].kind)
    ensures BlocksFrom(caps + rest, id, join)
            == Prepend(B.Block(id, B.TextBlock(Elements.Join(Texts(caps))), [caps[0].pageId], caps[0].bbox),
                       BlocksFrom(rest, id + 1, join))
  {
    var els := caps + rest;
    var text := CaptionText(caps[0].text, caps[1..]);
    CaptionRun(caps, rest, id);
    assert els[0] == caps[0];
    CaptionTextIsJoin(caps[0].text, caps[1..]);
    TextsCons(caps);
    BlocksFromSome(els, id, join, NewBlock(id, B.TextBlock(text), caps[0]), |caps|);
    assert els[|caps|..] == rest;
  }

  /**
   * The caption step on a run of captions and footnotes: it consumes the
   * run, its text is the run's texts, and the element after the run decides
   * between an image block and a text block.
   */
  lemma CaptionRun(caps: seq<Element>, rest: seq<Element>, id: nat)
    requires |caps| > 0 && forall k :: 0 <= k < |caps| ==> IsCaptionKind(caps[k].kind)
    requires |rest| > 0 ==> !IsCaptionKind(rest[0].kind)
    ensures CaptionRunStep(caps + rest, id)
            == if |rest| > 0 && rest[0].kind == Image
               then Step(Ok(Some(B.Block(id, B.Image(Some(CaptionText(caps[0].text, caps[1..]))), [rest[0].pageId],
                                         Merge(caps[0].bbox, rest[0].bbox)))), |caps| + 1)
               else Step(Ok(Some(NewBlock(id, B.TextBlock(CaptionText(caps[0].text, caps[1..])), caps[0]))), |caps|)
  {
    var els := caps + rest;
    RunLengthAt(els, 1, |caps|, {Caption, FootNote});
    assert els[1..][..|caps| - 1] == caps[1..];
    assert els[0] == caps[0];
    if |rest| > 0 {
      assert els[1..][|caps| - 1] == rest[0];
    }
  }

  /** An image followed by a caption or footnote takes that one element as its caption. */
  lemma ImageThenCaption(img: Element, cap: Element, rest: seq<Element>, id: nat, join: Join)
    requires img.kind == Image && IsCaptionKind(cap.kind)
    ensures BlocksFrom([img, cap] + rest, id, join)
            == Prepend(B.Block(id, B.Image(Some(cap.text)), [img.pageId], Merge(img.bbox, cap.bbox)),
                       BlocksFrom(rest, id + 1, join))
  {
    assert ([img, cap] + rest)[2..] == rest;
  }

  /** An image not followed by a caption has none, and the next element is left for the next step. */
  lemma ImageAlone(img: Element, rest: seq<Element>, id: nat, join: Join)
    requires img.kind == Image && (|rest| > 0 ==> !IsCaptionKind(rest[0].kind))
    ensures BlocksFrom([img] + rest, id, join)
            == Prepend(B.Block(id, B.Image(None), [img.pageId], img.bbox), BlocksFrom(rest, id + 1, join))
  {
    assert ([img] + rest)[1..] == rest;
  }
}
