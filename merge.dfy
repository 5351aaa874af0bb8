/**
 * Assignment of text lines to layout regions, and the elements built from
 * it: each line goes to the region it overlaps most (when it overlaps it
 * enough) or else to the nearest region (when it is near enough); regions
 * no line went to are inserted next to their nearest element.
 */
module Merge {
  import opened Wrappers
  import opened Geometry
  import opened Layout
  import opened Elements
  import Lines

  const MIN_INTERSECTION_LAYOUT: real := 0.5
  const LAYOUT_DISTANCE_X_WEIGHT: real := 5.0
  const LAYOUT_DISTANCE_Y_WEIGHT: real := 1.0
  const MAXIMUM_ASSIGNMENT_DISTANCE: real := 20.0

  // ---------------------------------------------------------------------------
  // Choosing a region for a line
  // ---------------------------------------------------------------------------

  function Overlap(b: LayoutBox, line: Lines.Line): real
  {
    Intersection(b.bbox, line.bbox)
  }

  /** The weighted squared centre distance of the merge engine (x counts five times as much). */
  function Dist(a: BBox, b: BBox): (d: real)
    ensures d >= 0.0
  {
    Distance(a, b, LAYOUT_DISTANCE_X_WEIGHT, LAYOUT_DISTANCE_Y_WEIGHT)
  }

  /** Index of the region of largest overlap; on ties the last (as `Iterator::max_by`). */
  function MaxOverlapIndex(boxes: seq<LayoutBox>, line: Lines.Line): (k: nat)
    requires |boxes| > 0
    ensures k < |boxes|
    ensures forall j :: 0 <= j < |boxes| ==> Overlap(boxes[j], line) <= Overlap(boxes[k], line)
    ensures forall j :: k < j < |boxes| ==> Overlap(boxes[j], line) < Overlap(boxes[k], line)
  {
    if |boxes| == 1 then 0
    else
      var k := MaxOverlapIndex(boxes[..|boxes| - 1], line);
      if Overlap(boxes[|boxes| - 1], line) >= Overlap(boxes[k], line) then |boxes| - 1 else k
  }

  /** Index of the box nearest to `target`; on ties the first (as `Iterator::min_by`). */
  function NearestIndex(boxes: seq<BBox>, target: BBox): (k: nat)
    requires |boxes| > 0
    ensures k < |boxes|
    ensures forall j :: 0 <= j < |boxes| ==> Dist(boxes[k], target) <= Dist(boxes[j], target)
    ensures forall j :: 0 <= j < k ==> Dist(boxes[k], target) < Dist(boxes[j], target)
  {
    if |boxes| == 1 then 0
    else
      var k := NearestIndex(boxes[..|boxes| - 1], target);
      if Dist(boxes[|boxes| - 1], target) < Dist(boxes[k], target) then |boxes| - 1 else k
  }

  function RegionBoxes(boxes: seq<LayoutBox>): (r: seq<BBox>)
    ensures |r| == |boxes| && forall k :: 0 <= k < |boxes| ==> r[k] == boxes[k].bbox
  {
    if |boxes| == 0 then [] else RegionBoxes(boxes[..|boxes| - 1]) + [boxes[|boxes| - 1].bbox]
  }

  /**
   * An overlap `inter` covers more than half of a line of area `area`.  A
   * line of zero area overlaps nothing, and 0/0 is NaN, which compares false.
   */
  predicate CoversHalf(inter: real, area: real)
  {
    area != 0.0 && inter / area > MIN_INTERSECTION_LAYOUT
  }

  /** The region overlaps more than half of the line. */
  predicate Claims(line: Lines.Line, b: LayoutBox)
  {
    CoversHalf(Intersection(line.bbox, b.bbox), Area(line.bbox))
  }

  /** The region chosen for a line in `merge_lines_layout`, by index. */
  function Select(boxes: seq<LayoutBox>, line: Lines.Line): (r: Option<nat>)
    ensures r.Some? ==> r.value < |boxes|
  {
    if |boxes| == 0 then None
    else
      var m := MaxOverlapIndex(boxes, line);
      if Claims(line, boxes[m]) then Some(m)
      else
        var d := NearestIndex(RegionBoxes(boxes), line.bbox);
        if Dist(boxes[d].bbox, line.bbox) < MAXIMUM_ASSIGNMENT_DISTANCE then Some(d) else None
  }

  lemma CoversHalfMonotone(i1: real, i2: real, area: real)
    requires 0.0 <= i1 <= i2 && CoversHalf(i1, area)
    ensures CoversHalf(i2, area)
  {
    if area > 0.0 {
      assert i2 / area - i1 / area == (i2 - i1) / area;
    }
  }

  /** A region with at least as much overlap claims the line whenever a region does. */
  lemma ClaimsMonotone(line: Lines.Line, a: LayoutBox, b: LayoutBox)
    requires Claims(line, a) && Overlap(a, line) <= Overlap(b, line)
    ensures Claims(line, b)
  {
    IntersectionSymmetric(a.bbox, line.bbox);
    IntersectionSymmetric(b.bbox, line.bbox);
    CoversHalfMonotone(Intersection(line.bbox, a.bbox), Intersection(line.bbox, b.bbox), Area(line.bbox));
  }

  /**
   * The choice of region for a line: the last region of maximal overlap when
   * some region claims the line; otherwise the first nearest region when it
   * lies within the assignment distance; otherwise none.
   */
  lemma SelectSpec(boxes: seq<LayoutBox>, line: Lines.Line)
    ensures (exists k :: 0 <= k < |boxes| && Claims(line, boxes[k])) ==>
              var r := Select(boxes, line);
              r.Some? && Claims(line, boxes[r.value])
              && (forall j :: 0 <= j < |boxes| ==> Overlap(boxes[j], line) <= Overlap(boxes[r.value], line))
              && (forall j :: r.value < j < |boxes| ==> Overlap(boxes[j], line) < Overlap(boxes[r.value], line))
    ensures (forall k :: 0 <= k < |boxes| ==> !Claims(line, boxes[k])) ==>
              var r := Select(boxes, line);
              (r.Some? <==> exists k :: 0 <= k < |boxes| && Dist(boxes[k].bbox, line.bbox) < MAXIMUM_ASSIGNMENT_DISTANCE)
              && (r.Some? ==>
                    (forall j :: 0 <= j < |boxes| ==> Dist(boxes[r.value].bbox, line.bbox) <= Dist(boxes[j].bbox, line.bbox))
                    && (forall j :: 0 <= j < r.value ==> Dist(boxes[r.value].bbox, line.bbox) < Dist(boxes[j].bbox, line.bbox)))
  {
    if exists k :: 0 <= k < |boxes| && Claims(line, boxes[k]) {
      var k :| 0 <= k < |boxes| && Claims(line, boxes[k]);
      SelectClaimed(boxes, line, k);
    } else {
      SelectNearest(boxes, line);
    }
  }

  /** When some region claims the line, the choice is the last region of largest overlap. */
  lemma SelectClaimed(boxes: seq<LayoutBox>, line: Lines.Line, k: nat)
    requires k < |boxes| && Claims(line, boxes[k])
    ensures Select(boxes, line) == Some(MaxOverlapIndex(boxes, line))
    ensures Claims(line, boxes[MaxOverlapIndex(boxes, line)])
  {
    ClaimsMonotone(line, boxes[k], boxes[MaxOverlapIndex(boxes, line)]);
  }

  /** When no region claims the line, the choice is the first nearest region, if near enough. */
  lemma SelectNearest(boxes: seq<LayoutBox>, line: Lines.Line)
    requires forall k :: 0 <= k < |boxes| ==> !Claims(line, boxes[k])
    ensures var r := Select(boxes, line);
              (r.Some? <==> exists k :: 0 <= k < |boxes| && Dist(boxes[k].bbox, line.bbox) < MAXIMUM_ASSIGNMENT_DISTANCE)
              && (r.Some? ==>
                    (forall j :: 0 <= j < |boxes| ==> Dist(boxes[r.value].bbox, line.bbox) <= Dist(boxes[j].bbox, line.bbox))
                    && (forall j :: 0 <= j < r.value ==> Dist(boxes[r.value].bbox, line.bbox) < Dist(boxes[j].bbox, line.bbox)))
  {
    if |boxes| > 0 {
      var rb := RegionBoxes(boxes);
      var d := NearestIndex(rb, line.bbox);
      assert Select(boxes, line) == if Dist(boxes[d].bbox, line.bbox) < MAXIMUM_ASSIGNMENT_DISTANCE then Some(d) else None;
      if exists k :: 0 <= k < |boxes| && Dist(boxes[k].bbox, line.bbox) < MAXIMUM_ASSIGNMENT_DISTANCE {
        var k :| 0 <= k < |boxes| && Dist(boxes[k].bbox, line.bbox) < MAXIMUM_ASSIGNMENT_DISTANCE;
        assert Dist(rb[d], line.bbox) <= Dist(rb[k], line.bbox);
      }
      forall j | 0 <= j < |boxes| ensures Dist(boxes[d].bbox, line.bbox) <= Dist(boxes[j].bbox, line.bbox) {
        assert Dist(rb[d], line.bbox) <= Dist(rb[j], line.bbox);
      }
      forall j | 0 <= j < d ensures Dist(boxes[d].bbox, line.bbox) < Dist(boxes[j].bbox, line.bbox) {
        assert Dist(rb[d], line.bbox) < Dist(rb[j], line.bbox);
      }
    }
  }

  // ---------------------------------------------------------------------------
  // merge_or_create_elements
  // ---------------------------------------------------------------------------

  /** The first element built from the region with layout id `id`. */
  function FindByLayoutId(elements: seq<Element>, id: int): (r: Option<nat>)
    ensures r.Some? ==> r.value < |elements| && elements[r.value].layoutBlockId == id
    ensures r.Some? ==> forall j :: 0 <= j < r.value ==> elements[j].layoutBlockId != id
    ensures r.None? ==> forall j :: 0 <= j < |elements| ==> elements[j].layoutBlockId != id
  {
    if |elements| == 0 then None
    else if elements[0].layoutBlockId == id then Some(0)
    else match FindByLayoutId(elements[1..], id)
      case None => None
      case Some(k) => Some(k + 1)
  }

  /**
   * The elements after `merge_or_create_elements`.  An empty vector first
   * receives an element (id 0) holding the line, which the search then
   * finds, so the line is pushed into it twice.  The line goes into the
   * element of its region if there is one, else into a new element with id
   * one more than the element count.
   */
  function MergeOrCreate(elements: seq<Element>, line: Lines.Line, b: LayoutBox, pageId: nat): seq<Element>
    requires Known(b)
  {
    var base := if |elements| == 0 then [PushLine(FromLayoutBlock(0, b, pageId), line.text)] else elements;
    match FindByLayoutId(base, b.id)
    case Some(k) => base[k := PushLine(base[k], line.text)]
    case None => base + [PushLine(FromLayoutBlock(|base| + 1, b, pageId), line.text)]
  }

  method MergeOrCreateElements(elements: seq<Element>, line: Lines.Line, b: LayoutBox, pageId: nat)
    returns (r: seq<Element>)
    requires Known(b)
    ensures r == MergeOrCreate(elements, line, b, pageId)
  {
    r := elements;
    if |r| == 0 {
      r := r + [PushLine(FromLayoutBlock(0, b, pageId), line.text)];
    }
    var k := 0;
    while k < |r| && r[k].layoutBlockId != b.id
      invariant 0 <= k <= |r|
      invariant forall j :: 0 <= j < k ==> r[j].layoutBlockId != b.id
    {
      k := k + 1;
    }
    ghost var found := FindByLayoutId(r, b.id);
    if k < |r| {
      assert found == Some(k);
      r := r[k := PushLine(r[k], line.text)];
    } else {
      assert found.None?;
      r := r + [PushLine(FromLayoutBlock(|r| + 1, b, pageId), line.text)];
    }
  }

  /** No two elements come from the same region. */
  predicate UniqueRegions(elements: seq<Element>)
  {
    forall i, j :: 0 <= i < j < |elements| ==> elements[i].layoutBlockId != elements[j].layoutBlockId
  }

  /** Every element comes from a region of `boxes`. */
  predicate FromRegions(elements: seq<Element>, boxes: seq<LayoutBox>)
  {
    forall i :: 0 <= i < |elements| ==> exists k :: 0 <= k < |boxes| && elements[i].layoutBlockId == boxes[k].id
  }

  /**
   * One line merged in: the line's region then has exactly one element,
   * which received the line's text (the region's old element with the line
   * pushed, or a new element numbered one past the count with the line
   * pushed); every other element is unchanged; at most one element is added.
   */
  lemma MergeOrCreateSpec(elements: seq<Element>, line: Lines.Line, b: LayoutBox, pageId: nat, boxes: seq<LayoutBox>)
    requires Known(b) && b in boxes
    requires UniqueRegions(elements) && FromRegions(elements, boxes)
    ensures var r := MergeOrCreate(elements, line, b, pageId);
      UniqueRegions(r) && FromRegions(r, boxes)
      && (|elements| > 0 ==> |r| <= |elements| + 1)
      && (exists k :: 0 <= k < |r| && r[k].layoutBlockId == b.id)
      && (forall i :: 0 <= i < |elements| && elements[i].layoutBlockId != b.id ==> r[i] == elements[i])
    ensures var r := MergeOrCreate(elements, line, b, pageId);
      FindByLayoutId(elements, b.id).Some? ==>
        var k := FindByLayoutId(elements, b.id).value;
        k < |elements| && |r| == |elements| && r[k] == PushLine(elements[k], line.text)
    ensures var r := MergeOrCreate(elements, line, b, pageId);
      FindByLayoutId(elements, b.id).None? && |elements| > 0 ==>
        r == elements + [PushLine(FromLayoutBlock(|elements| + 1, b, pageId), line.text)]
  {
    var base := if |elements| == 0 then [PushLine(FromLayoutBlock(0, b, pageId), line.text)] else elements;
    var kb :| 0 <= kb < |boxes| && boxes[kb] == b;
    assert FromRegions(base, boxes) by {
      if |elements| == 0 {
        assert base[0].layoutBlockId == boxes[kb].id;
      }
    }
    match FindByLayoutId(base, b.id)
    case Some(k) =>
      UpdateKeepsRegions(base, k, line.text, boxes);
    case None =>
      AppendKeepsRegions(base, PushLine(FromLayoutBlock(|base| + 1, b, pageId), line.text), boxes, kb);
  }

  /** Pushing a line into one element keeps the regions of all elements. */
  lemma UpdateKeepsRegions(base: seq<Element>, k: nat, text: string, boxes: seq<LayoutBox>)
    requires k < |base| && UniqueRegions(base) && FromRegions(base, boxes)
    ensures var r := base[k := PushLine(base[k], text)];
      UniqueRegions(r) && FromRegions(r, boxes) && r[k].layoutBlockId == base[k].layoutBlockId
      && forall i :: 0 <= i < |base| && i != k ==> r[i] == base[i]
  {
    var r := base[k := PushLine(base[k], text)];
    assert forall i :: 0 <= i < |r| ==> r[i].layoutBlockId == base[i].layoutBlockId;
  }

  /** Appending an element of a new region of `boxes` keeps the regions unique and known. */
  lemma AppendKeepsRegions(base: seq<Element>, e: Element, boxes: seq<LayoutBox>, kb: nat)
    requires UniqueRegions(base) && FromRegions(base, boxes)
    requires kb < |boxes| && e.layoutBlockId == boxes[kb].id
    requires forall j :: 0 <= j < |base| ==> base[j].layoutBlockId != e.layoutBlockId
    ensures var r := base + [e];
      UniqueRegions(r) && FromRegions(r, boxes) && r[|base|] == e && forall i :: 0 <= i < |base| ==> r[i] == base[i]
  {
    var r := base + [e];
    assert r[|base|].layoutBlockId == boxes[kb].id;
  }

  /** On an empty vector the region's first line is pushed twice. */
  lemma FirstLinePushedTwice(line: Lines.Line, b: LayoutBox, pageId: nat)
    requires Known(b)
    ensures var r := MergeOrCreate([], line, b, pageId);
      |r| == 1 && r[0].id == 0 && r[0].layoutBlockId == b.id
      && r[0].text == (if line.text == "" then "" else AppendLine(line.text, line.text))
  {
  }

  // ---------------------------------------------------------------------------
  // merge_lines_layout
  // ---------------------------------------------------------------------------

  /** The three vectors the dispatch loop fills. */
  datatype Groups = Groups(headers: seq<Element>, body: seq<Element>, footers: seq<Element>)

  /** One line of the dispatch loop: merged into the group of its region's label, or dropped. */
  function Dispatch(g: Groups, boxes: seq<LayoutBox>, line: Lines.Line, pageId: nat): Groups
    requires AllKnown(boxes)
  {
    match Select(boxes, line)
    case None => g
    case Some(k) =>
      var b := boxes[k];
      if b.category == "Page-header" then g.(headers := MergeOrCreate(g.headers, line, b, pageId))
      else if b.category == "Page-footer" then g.(footers := MergeOrCreate(g.footers, line, b, pageId))
      else g.(body := MergeOrCreate(g.body, line, b, pageId))
  }

  function Grouped(boxes: seq<LayoutBox>, lines: seq<Lines.Line>, pageId: nat): Groups
    requires AllKnown(boxes)
  {
    if |lines| == 0 then Groups([], [], [])
    else Dispatch(Grouped(boxes, lines[..|lines| - 1], pageId), boxes, lines[|lines| - 1], pageId)
  }

  /** The result of `merge_lines_layout`: headers, then the other elements, then footers. */
  function MergedLines(boxes: seq<LayoutBox>, lines: seq<Lines.Line>, pageId: nat): seq<Element>
    requires AllKnown(boxes)
  {
    var g := Grouped(boxes, lines, pageId);
    g.headers + g.body + g.footers
  }

  method MergeLinesLayout(boxes: seq<LayoutBox>, lines: seq<Lines.Line>, pageId: nat) returns (elements: seq<Element>)
    requires AllKnown(boxes)
    ensures elements == MergedLines(boxes, lines, pageId)
  {
    var headers, body, footers := [], [], [];
    for n := 0 to |lines|
      invariant Groups(headers, body, footers) == Grouped(boxes, lines[..n], pageId)
    {
      var line := lines[n];
      assert lines[..n + 1][..n] == lines[..n];
      var m := Select(boxes, line);
      if m.Some? {
        var b := boxes[m.value];
        if b.category == "Page-header" {
          headers := MergeOrCreateElements(headers, line, b, pageId);
        } else if b.category == "Page-footer" {
          footers := MergeOrCreateElements(footers, line, b, pageId);
        } else {
          body := MergeOrCreateElements(body, line, b, pageId);
        }
      }
    }
    assert lines[..|lines|] == lines;
    elements := headers + body + footers;
  }

  predicate AllOfKind(elements: seq<Element>, kind: ElementType)
  {
    forall i :: 0 <= i < |elements| ==> elements[i].kind == kind
  }

  predicate NoneOfKind(elements: seq<Element>, kind: ElementType)
  {
    forall i :: 0 <= i < |elements| ==> elements[i].kind != kind
  }

  /** The shape the dispatch loop keeps. */
  predicate GroupsShape(g: Groups, boxes: seq<LayoutBox>)
  {
    AllOfKind(g.headers, Header) && AllOfKind(g.footers, Footer)
    && NoneOfKind(g.body, Header) && NoneOfKind(g.body, Footer)
    && UniqueRegions(g.headers) && UniqueRegions(g.body) && UniqueRegions(g.footers)
    && FromRegions(g.headers, boxes) && FromRegions(g.body, boxes) && FromRegions(g.footers, boxes)
  }

  function Count(g: Groups): nat { |g.headers| + |g.body| + |g.footers| }

  lemma DispatchShape(g: Groups, boxes: seq<LayoutBox>, line: Lines.Line, pageId: nat)
    requires AllKnown(boxes) && GroupsShape(g, boxes)
    ensures GroupsShape(Dispatch(g, boxes, line, pageId), boxes)
    ensures Count(Dispatch(g, boxes, line, pageId)) <= Count(g) + 1
  {
    match Select(boxes, line)
    case None =>
    case Some(k) =>
      var b := boxes[k];
      assert b in boxes;
      if b.category == "Page-header" {
        MergeIntoGroup(g.headers, line, b, pageId, boxes, Header);
      } else if b.category == "Page-footer" {
        MergeIntoGroup(g.footers, line, b, pageId, boxes, Footer);
      } else {
        MergeIntoBody(g.body, line, b, pageId, boxes);
      }
  }

  /** At most one element more, even on an empty vector (where the first push and the lookup share the element). */
  lemma MergeOrCreateGrowth(elements: seq<Element>, line: Lines.Line, b: LayoutBox, pageId: nat)
    requires Known(b)
    ensures |MergeOrCreate(elements, line, b, pageId)| <= |elements| + 1
  {
    if |elements| == 0 {
      assert FindByLayoutId([PushLine(FromLayoutBlock(0, b, pageId), line.text)], b.id) == Some(0);
    }
  }

  /** Merging into a group of one kind with a region of that kind keeps the group's shape. */
  lemma MergeIntoGroup(es: seq<Element>, line: Lines.Line, b: LayoutBox, pageId: nat, boxes: seq<LayoutBox>,
                       kind: ElementType)
    requires Known(b) && b in boxes && UniqueRegions(es) && FromRegions(es, boxes)
    requires AllOfKind(es, kind) && KindOfLabel(b.category) == Some(kind)
    ensures var r := MergeOrCreate(es, line, b, pageId);
      AllOfKind(r, kind) && UniqueRegions(r) && FromRegions(r, boxes) && |r| <= |es| + 1
  {
    MergeOrCreateSpec(es, line, b, pageId, boxes);
    KindsOwn(MergeOrCreate(es, line, b, pageId), boxes, b, es, line, pageId);
    MergeOrCreateGrowth(es, line, b, pageId);
  }

  /** Merging a region that is neither header nor footer keeps the body free of both. */
  lemma MergeIntoBody(es: seq<Element>, line: Lines.Line, b: LayoutBox, pageId: nat, boxes: seq<LayoutBox>)
    requires Known(b) && b in boxes && UniqueRegions(es) && FromRegions(es, boxes)
    requires NoneOfKind(es, Header) && NoneOfKind(es, Footer)
    requires b.category != "Page-header" && b.category != "Page-footer"
    ensures var r := MergeOrCreate(es, line, b, pageId);
      NoneOfKind(r, Header) && NoneOfKind(r, Footer) && UniqueRegions(r) && FromRegions(r, boxes) && |r| <= |es| + 1
  {
    MergeOrCreateSpec(es, line, b, pageId, boxes);
    KindsOwn(MergeOrCreate(es, line, b, pageId), boxes, b, es, line, pageId);
    MergeOrCreateGrowth(es, line, b, pageId);
  }

  /** Merging keeps the kinds of the old elements, and any new element has the region's kind. */
  lemma KindsOwn(r: seq<Element>, boxes: seq<LayoutBox>, b: LayoutBox, elements: seq<Element>, line: Lines.Line,
                 pageId: nat)
    requires Known(b) && r == MergeOrCreate(elements, line, b, pageId)
    ensures forall i :: 0 <= i < |r| ==>
              (i < |elements| && r[i].kind == elements[i].kind) || Some(r[i].kind) == KindOfLabel(b.category)
  {
    var base := if |elements| == 0 then [PushLine(FromLayoutBlock(0, b, pageId), line.text)] else elements;
    match FindByLayoutId(base, b.id)
    case Some(k) =>
    case None =>
  }

  /**
   * Over all the lines: headers hold only Page-header elements, footers only
   * Page-footer elements, the body neither; within each group no region
   * has two elements; every element comes from a region of the page; and
   * there are at most as many elements as lines.
   */
  lemma {:induction false} GroupedShape(boxes: seq<LayoutBox>, lines: seq<Lines.Line>, pageId: nat)
    requires AllKnown(boxes)
    ensures GroupsShape(Grouped(boxes, lines, pageId), boxes)
    ensures Count(Grouped(boxes, lines, pageId)) <= |lines|
  {
    if |lines| > 0 {
      GroupedShape(boxes, lines[..|lines| - 1], pageId);
      DispatchShape(Grouped(boxes, lines[..|lines| - 1], pageId), boxes, lines[|lines| - 1], pageId);
    }
  }

  // ---------------------------------------------------------------------------
  // merge_remaining
  // ---------------------------------------------------------------------------

  function ElementBoxes(elements: seq<Element>): (r: seq<BBox>)
    ensures |r| == |elements| && forall k :: 0 <= k < |elements| ==> r[k] == elements[k].bbox
  {
    if |elements| == 0 then [] else ElementBoxes(elements[..|elements| - 1]) + [elements[|elements| - 1].bbox]
  }

  /** Where `merge_remaining` inserts a region: before its nearest element, or at the end of no elements. */
  function InsertionIndex(elements: seq<Element>, b: LayoutBox): (k: nat)
    ensures k <= |elements|
  {
    if |elements| == 0 then 0 else NearestIndex(ElementBoxes(elements), b.bbox)
  }

  /** One region inserted, as an empty element whose id is the element count before insertion. */
  function InsertRegion(elements: seq<Element>, b: LayoutBox, pageId: nat): seq<Element>
    requires Known(b)
  {
    var k := InsertionIndex(elements, b);
    elements[..k] + [FromLayoutBlock(|elements|, b, pageId)] + elements[k..]
  }

  function InsertedAll(elements: seq<Element>, remaining: seq<LayoutBox>, pageId: nat): seq<Element>
    requires AllKnown(remaining)
  {
    if |remaining| == 0 then elements
    else InsertRegion(InsertedAll(elements, remaining[..|remaining| - 1], pageId), remaining[|remaining| - 1], pageId)
  }

  method MergeRemaining(elements: seq<Element>, remaining: seq<LayoutBox>, pageId: nat) returns (r: seq<Element>)
    requires AllKnown(remaining)
    ensures r == InsertedAll(elements, remaining, pageId)
  {
    r := elements;
    for n := 0 to |remaining|
      invariant r == InsertedAll(elements, remaining[..n], pageId)
    {
      assert remaining[..n + 1][..n] == remaining[..n];
      var b := remaining[n];
      var k := FindInsertionIndex(r, b);
      r := r[..k] + [FromLayoutBlock(|r|, b, pageId)] + r[k..];
    }
    assert remaining[..|remaining|] == remaining;
  }

  /** The position scan of `merge_remaining`: the first element of least distance to the region. */
  method FindInsertionIndex(elements: seq<Element>, b: LayoutBox) returns (k: nat)
    ensures k == InsertionIndex(elements, b)
  {
    k := |elements|;
    if |elements| > 0 {
      k := 0;
      for j := 1 to |elements|
        invariant k < j
        invariant forall t :: 0 <= t < j ==> Dist(elements[k].bbox, b.bbox) <= Dist(elements[t].bbox, b.bbox)
        invariant forall t :: 0 <= t < k ==> Dist(elements[k].bbox, b.bbox) < Dist(elements[t].bbox, b.bbox)
      {
        if Dist(elements[j].bbox, b.bbox) < Dist(elements[k].bbox, b.bbox) {
          k := j;
        }
      }
      NearestUnique(ElementBoxes(elements), b.bbox, k);
    }
  }

  /** The first nearest index is determined by its two defining properties. */
  lemma NearestUnique(boxes: seq<BBox>, target: BBox, k: nat)
    requires k < |boxes|
    requires forall t :: 0 <= t < |boxes| ==> Dist(boxes[k], target) <= Dist(boxes[t], target)
    requires forall t :: 0 <= t < k ==> Dist(boxes[k], target) < Dist(boxes[t], target)
    ensures NearestIndex(boxes, target) == k
  {
  }

  /**
   * One insertion: the old elements keep their order, split around the
   * insertion point; the new element holds the region and sits just before
   * the element nearest to it (the first such), or at the end when there
   * were no elements.
   */
  lemma InsertRegionSpec(elements: seq<Element>, b: LayoutBox, pageId: nat)
    requires Known(b)
    ensures var r := InsertRegion(elements, b, pageId);
      var k := InsertionIndex(elements, b);
      |r| == |elements| + 1
      && r[..k] == elements[..k] && r[k + 1..] == elements[k..]
      && r[k] == FromLayoutBlock(|elements|, b, pageId)
      && (|elements| == 0 ==> k == 0)
      && (|elements| > 0 ==>
            (forall j :: 0 <= j < |elements| ==> Dist(elements[k].bbox, b.bbox) <= Dist(elements[j].bbox, b.bbox))
            && (forall j :: 0 <= j < k ==> Dist(elements[k].bbox, b.bbox) < Dist(elements[j].bbox, b.bbox)))
  {
    var r := InsertRegion(elements, b, pageId);
    var k := InsertionIndex(elements, b);
    assert r[..k] == elements[..k];
    assert r[k + 1..] == elements[k..];
    if |elements| > 0 {
      var eb := ElementBoxes(elements);
      forall j | 0 <= j < |elements| ensures Dist(elements[k].bbox, b.bbox) <= Dist(elements[j].bbox, b.bbox) {
        assert Dist(eb[k], b.bbox) <= Dist(eb[j], b.bbox);
      }
      forall j | 0 <= j < k ensures Dist(elements[k].bbox, b.bbox) < Dist(elements[j].bbox, b.bbox) {
        assert Dist(eb[k], b.bbox) < Dist(eb[j], b.bbox);
      }
    }
  }

  /** Some element is built from region `id`. */
  predicate HasRegion(elements: seq<Element>, id: int)
  {
    exists i :: 0 <= i < |elements| && elements[i].layoutBlockId == id
  }

  /** One insertion keeps every old element and adds the region's. */
  lemma InsertRegionKeeps(prev: seq<Element>, b: LayoutBox, pageId: nat)
    requires Known(b)
    ensures var r := InsertRegion(prev, b, pageId);
      multiset(r) == multiset(prev) + multiset{FromLayoutBlock(|prev|, b, pageId)}
      && HasRegion(r, b.id)
      && forall id :: HasRegion(prev, id) ==> HasRegion(r, id)
  {
    var r := InsertRegion(prev, b, pageId);
    InsertRegionSpec(prev, b, pageId);
    var k := InsertionIndex(prev, b);
    SplicedMultiset(prev, r, k, FromLayoutBlock(|prev|, b, pageId));
    SplicedRegions(prev, r, k);
    assert r[k].layoutBlockId == b.id;
  }

  /** A sequence with one element spliced in holds that element once more. */
  lemma SplicedMultiset<T>(prev: seq<T>, r: seq<T>, k: nat, x: T)
    requires k <= |prev| && |r| == |prev| + 1 && r[..k] == prev[..k] && r[k] == x && r[k + 1..] == prev[k..]
    ensures multiset(r) == multiset(prev) + multiset{x}
  {
    assert r == r[..k] + [x] + r[k + 1..];
    assert prev == prev[..k] + prev[k..];
  }

  /** Splicing an element in keeps every region that was present. */
  lemma SplicedRegions(prev: seq<Element>, r: seq<Element>, k: nat)
    requires k <= |prev| && |r| == |prev| + 1 && r[..k] == prev[..k] && r[k + 1..] == prev[k..]
    ensures forall id :: HasRegion(prev, id) ==> HasRegion(r, id)
  {
    forall id | HasRegion(prev, id) ensures HasRegion(r, id) {
      var i :| 0 <= i < |prev| && prev[i].layoutBlockId == id;
      if i < k {
        assert r[..k][i] == prev[..k][i];
        assert r[i].layoutBlockId == id;
      } else {
        assert r[k + 1..][i - k] == prev[k..][i - k];
        assert r[i + 1].layoutBlockId == id;
      }
    }
  }

  /**
   * All regions inserted: one element more per region, every old element
   * kept (with its multiplicity), and every inserted region present.
   */
  lemma {:induction false} InsertedAllSpec(elements: seq<Element>, remaining: seq<LayoutBox>, pageId: nat)
    requires AllKnown(remaining)
    ensures var r := InsertedAll(elements, remaining, pageId);
      |r| == |elements| + |remaining|
      && multiset(elements) <= multiset(r)
      && (forall i :: 0 <= i < |elements| ==> HasRegion(r, elements[i].layoutBlockId))
      && (forall k :: 0 <= k < |remaining| ==> HasRegion(r, remaining[k].id))
  {
    if |remaining| > 0 {
      var init := remaining[..|remaining| - 1];
      var b := remaining[|remaining| - 1];
      InsertedAllSpec(elements, init, pageId);
      var prev := InsertedAll(elements, init, pageId);
      InsertRegionKeeps(prev, b, pageId);
      InsertOneMore(elements, remaining, init, prev, InsertRegion(prev, b, pageId), FromLayoutBlock(|prev|, b, pageId));
    } else {
      forall i | 0 <= i < |elements| ensures HasRegion(elements, elements[i].layoutBlockId) {
      }
    }
  }

  /** The step of `InsertedAllSpec`: the facts about the elements so far carry over one insertion. */
  lemma InsertOneMore(elements: seq<Element>, remaining: seq<LayoutBox>, init: seq<LayoutBox>,
                      prev: seq<Element>, r: seq<Element>, x: Element)
    requires |remaining| > 0 && init == remaining[..|remaining| - 1]
    requires |prev| == |elements| + |init| && multiset(elements) <= multiset(prev)
    requires forall i :: 0 <= i < |elements| ==> HasRegion(prev, elements[i].layoutBlockId)
    requires forall k :: 0 <= k < |init| ==> HasRegion(prev, init[k].id)
    requires multiset(r) == multiset(prev) + multiset{x} && HasRegion(r, remaining[|remaining| - 1].id)
    requires forall id :: HasRegion(prev, id) ==> HasRegion(r, id)
    ensures |r| == |elements| + |remaining| && multiset(elements) <= multiset(r)
    ensures forall i :: 0 <= i < |elements| ==> HasRegion(r, elements[i].layoutBlockId)
    ensures forall k :: 0 <= k < |remaining| ==> HasRegion(r, remaining[k].id)
  {
    assert |multiset(r)| == |multiset(prev)| + 1;
    forall k | 0 <= k < |init| ensures HasRegion(r, remaining[k].id) {
      assert init[k] == remaining[k];
    }
  }
}
