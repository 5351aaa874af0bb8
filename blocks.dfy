/**
 * Output blocks: what the merge engine turns elements into, and the merge
 * of one more element into a text or list block.
 */
module Blocks {
  import opened Wrappers
  import opened Geometry
  import Elements

  datatype BlockType =
    | Header(text: string)
    | Footer(text: string)
    | Title(level: nat, text: string)
    | ListBlock(items: seq<string>)
    | TextBlock(text: string)
    | Image(caption: Option<string>)
    | Table

  datatype Block = Block(id: nat, kind: BlockType, pagesId: seq<nat>, bbox: BBox)

  /** The block kinds `Block::merge` handles; the others are unimplemented and panic. */
  predicate Mergeable(b: Block) { b.kind.TextBlock? || b.kind.ListBlock? }

  /**
   * `Block::merge`: a Text element extends a text block (a newline, then its
   * text) and a ListItem element adds an item to a list block, each growing
   * the box to cover the element; any other element is refused and the block
   * is left as it was.
   */
  function Merge(b: Block, e: Elements.Element): (r: Result<Block, string>)
    requires Mergeable(b)
    ensures r.Ok? <==> (b.kind.TextBlock? && e.kind == Elements.Text) || (b.kind.ListBlock? && e.kind == Elements.ListItem)
    ensures r.Ok? ==> r.value.id == b.id && r.value.pagesId == b.pagesId
    ensures r.Ok? ==> Contains(r.value.bbox, b.bbox) && Contains(r.value.bbox, e.bbox)
    ensures r.Ok? ==> forall c :: Contains(c, b.bbox) && Contains(c, e.bbox) ==> Contains(c, r.value.bbox)
    ensures r.Ok? && b.kind.TextBlock? ==> r.value.kind == TextBlock(b.kind.text + "\n" + e.text)
    ensures r.Ok? && b.kind.ListBlock? ==> r.value.kind == ListBlock(b.kind.items + [e.text])
  {
    match b.kind
    case TextBlock(text) =>
      if e.kind == Elements.Text then Ok(b.(bbox := Geometry.Merge(b.bbox, e.bbox), kind := TextBlock(text + "\n" + e.text)))
      else Err("can't merge element in textblock")
    case ListBlock(items) =>
      if e.kind == Elements.ListItem then Ok(b.(bbox := Geometry.Merge(b.bbox, e.bbox), kind := ListBlock(items + [e.text])))
      else Err("can't merge element in Listblock")
  }

  /** `Block::label`: the tag of each block kind. */
  function Label(b: Block): string
  {
    match b.kind
    case Header(_) => "HEADER"
    case Footer(_) => "FOOTER"
    case TextBlock(_) => "TEXT"
    case Title(_, _) => "TITLE"
    case ListBlock(_) => "LIST"
    case Image(_) => "Image"
    case Table => "TABLE"
  }

  /** Same kind of block, whatever its contents. */
  predicate SameKind(a: BlockType, b: BlockType)
  {
    (a.Header? && b.Header?) || (a.Footer? && b.Footer?) || (a.Title? && b.Title?) || (a.ListBlock? && b.ListBlock?)
    || (a.TextBlock? && b.TextBlock?) || (a.Image? && b.Image?) || (a.Table? && b.Table?)
  }

  /** The label depends on the kind alone, and different kinds have different labels. */
  lemma LabelIdentifiesKind(a: Block, b: Block)
    ensures Label(a) == Label(b) <==> SameKind(a.kind, b.kind)
  {
    assert "HEADER" != "FOOTER" && "TEXT" != "TITLE" && "LIST" != "Image" && "TABLE" != "TEXT";
  }
}
