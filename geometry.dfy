/**
 * Axis-aligned bounding boxes in page coordinates.
 *
 * The page origin is the top-left corner and y grows downward; PDF rectangles
 * (origin bottom-left) are flipped on the way in.  Coordinates are `real`:
 * the f32 rounding of the original is not modelled.
 */
module Geometry {

  datatype BBox = BBox(x0: real, y0: real, x1: real, y1: real)

  /** A box whose corners are in order (every box the engine builds from a page). */
  predicate WellFormed(b: BBox) { b.x0 <= b.x1 && b.y0 <= b.y1 }

  function Max(a: real, b: real): real { if a >= b then a else b }
  function Min(a: real, b: real): real { if a <= b then a else b }

  function Width(b: BBox): real { b.x1 - b.x0 }
  function Height(b: BBox): real { b.y1 - b.y0 }

  function Area(b: BBox): (r: real)
    ensures WellFormed(b) ==> r >= 0.0
  {
    Height(b) * Width(b)
  }

  /**
   * A PDF rectangle (bottom, left, top, right) measured from the bottom of a
   * page of height `pageHeight`, as a top-left-origin box: the extent is kept
   * and the vertical position is mirrored.
   */
  function FromPdfRect(bottom: real, left: real, top: real, right: real, pageHeight: real): (r: BBox)
    ensures Width(r) == right - left && Height(r) == top - bottom
    ensures r.y0 + top == pageHeight && r.y1 + bottom == pageHeight && r.x0 == left
    ensures bottom <= top && left <= right ==> WellFormed(r)
  {
    BBox(left, pageHeight - top, right, pageHeight - bottom)
  }

  /** The centre point: the midpoint of both extents. */
  function Center(b: BBox): (c: (real, real))
    ensures c.0 == (b.x0 + b.x1) / 2.0 && c.1 == (b.y0 + b.y1) / 2.0
  {
    (b.x0 + Width(b) / 2.0, b.y0 + Height(b) / 2.0)
  }

  /** `other` lies inside `outer`, borders included. */
  predicate Contains(outer: BBox, other: BBox)
  {
    other.x0 >= outer.x0 && other.y0 >= outer.y0 && other.x1 <= outer.x1 && other.y1 <= outer.y1
  }

  /**
   * The smallest box covering both boxes (the in-place `merge` of the current
   * engine writes this value into self; the older one returns it).
   */
  function Merge(a: BBox, b: BBox): (r: BBox)
    ensures Contains(r, a) && Contains(r, b)
    ensures forall c :: Contains(c, a) && Contains(c, b) ==> Contains(c, r)
    ensures WellFormed(a) ==> WellFormed(r)
  {
    BBox(Min(a.x0, b.x0), Min(a.y0, b.y0), Max(a.x1, b.x1), Max(a.y1, b.y1))
  }

  /** Length of the common part of the two horizontal extents (0 when apart). */
  function OverlapX(a: BBox, b: BBox): (r: real)
    ensures r >= 0.0
    ensures r > 0.0 <==> a.x0 < b.x1 && b.x0 < a.x1 && a.x0 < a.x1 && b.x0 < b.x1
    ensures WellFormed(a) ==> r <= Width(a)
    ensures WellFormed(b) ==> r <= Width(b)
  {
    Max(0.0, Min(a.x1, b.x1) - Max(a.x0, b.x0))
  }

  /** Length of the common part of the two vertical extents (0 when apart). */
  function OverlapY(a: BBox, b: BBox): (r: real)
    ensures r >= 0.0
    ensures r > 0.0 <==> a.y0 < b.y1 && b.y0 < a.y1 && a.y0 < a.y1 && b.y0 < b.y1
    ensures WellFormed(a) ==> r <= Height(a)
    ensures WellFormed(b) ==> r <= Height(b)
  {
    Max(0.0, Min(a.y1, b.y1) - Max(a.y0, b.y0))
  }

  function Intersection(a: BBox, b: BBox): (r: real)
    ensures r >= 0.0
  {
    OverlapX(a, b) * OverlapY(a, b)
  }

  function Union(a: BBox, b: BBox): real
  {
    Area(b) + Area(a) - Intersection(a, b)
  }

  /** Intersection over union; the original divides unchecked, so a zero union is excluded. */
  function Iou(a: BBox, b: BBox): real
    requires Union(a, b) != 0.0
  {
    Intersection(a, b) / Union(a, b)
  }

  /** Intersection over the smaller of the two areas. */
  function RelaxedIou(a: BBox, b: BBox): real
    requires Min(Area(a), Area(b)) != 0.0
  {
    Intersection(a, b) / Min(Area(a), Area(b))
  }

  /** Squared centre distance with a separate weight per axis. */
  function Distance(a: BBox, b: BBox, xWeight: real, yWeight: real): (d: real)
    ensures xWeight >= 0.0 && yWeight >= 0.0 ==> d >= 0.0
    ensures Center(a) == Center(b) ==> d == 0.0
  {
    var (ax, ay) := Center(a);
    var (cx, cy) := Center(b);
    SquareWeighted(ax - cx, xWeight);
    SquareWeighted(ay - cy, yWeight);
    (ax - cx) * (ax - cx) * xWeight + (ay - cy) * (ay - cy) * yWeight
  }

  lemma SquareWeighted(x: real, w: real)
    ensures w >= 0.0 ==> x * x * w >= 0.0
    ensures x == 0.0 ==> x * x * w == 0.0
  {
    assert x * x >= 0.0;
    if w >= 0.0 {
      assert x * x * w >= 0.0 * w;
    }
  }

  lemma DivAtMostOne(x: real, y: real)
    requires 0.0 <= x <= y && y > 0.0
    ensures 0.0 <= x / y <= 1.0
    ensures x == y ==> x / y == 1.0
  {
    assert x / y * y == x;
  }

  // ---------------------------------------------------------------------------
  // Properties
  // ---------------------------------------------------------------------------

  lemma MulMonotone(x: real, y: real, mx: real, my: real)
    requires 0.0 <= x <= mx && 0.0 <= y <= my
    ensures x * y <= mx * my
  {
    assert x * y <= mx * y;
    assert mx * y <= mx * my;
  }

  /** The common part of two boxes is never larger than either box. */
  lemma IntersectionAtMostAreas(a: BBox, b: BBox)
    requires WellFormed(a) && WellFormed(b)
    ensures Intersection(a, b) <= Area(a) && Intersection(a, b) <= Area(b)
    ensures Intersection(a, b) <= Min(Area(a), Area(b))
  {
    IntersectionAtMostFirst(a, b);
    IntersectionSymmetric(a, b);
    IntersectionAtMostFirst(b, a);
  }

  lemma IntersectionAtMostFirst(a: BBox, b: BBox)
    requires WellFormed(a)
    ensures Intersection(a, b) <= Area(a)
  {
    var ox, oy := OverlapX(a, b), OverlapY(a, b);
    var w, h := Width(a), Height(a);
    MulMonotone(ox, oy, w, h);
    assert w * h == h * w;
  }

  /** Intersection and union do not depend on the order of the boxes. */
  lemma IntersectionSymmetric(a: BBox, b: BBox)
    ensures Intersection(a, b) == Intersection(b, a)
    ensures Union(a, b) == Union(b, a)
  {
    assert OverlapX(a, b) == OverlapX(b, a);
    assert OverlapY(a, b) == OverlapY(b, a);
  }

  /** Boxes that at most touch along an edge have nothing in common. */
  lemma DisjointIntersectionZero(a: BBox, b: BBox)
    requires a.x1 <= b.x0 || b.x1 <= a.x0 || a.y1 <= b.y0 || b.y1 <= a.y0
    ensures Intersection(a, b) == 0.0
  {
    assert OverlapX(a, b) == 0.0 || OverlapY(a, b) == 0.0;
  }

  /** A box intersects itself in its whole area. */
  lemma SelfIntersection(a: BBox)
    requires WellFormed(a)
    ensures Intersection(a, a) == Area(a) && Union(a, a) == Area(a)
  {
    assert OverlapX(a, a) == Width(a);
    assert OverlapY(a, a) == Height(a);
  }

  /** A box inside another intersects it in its own whole area. */
  lemma ContainedIntersection(outer: BBox, inner: BBox)
    requires WellFormed(inner) && Contains(outer, inner)
    ensures Intersection(outer, inner) == Area(inner)
    ensures Area(inner) <= Area(outer)
  {
    assert OverlapX(outer, inner) == Width(inner);
    assert OverlapY(outer, inner) == Height(inner);
    MulMonotone(Height(inner), Width(inner), Height(outer), Width(outer));
  }

  /** For well-formed boxes of positive area the union is positive and covers both areas. */
  lemma UnionBounds(a: BBox, b: BBox)
    requires WellFormed(a) && WellFormed(b)
    ensures Union(a, b) >= Area(a) && Union(a, b) >= Area(b)
    ensures Area(a) > 0.0 || Area(b) > 0.0 ==> Union(a, b) > 0.0
  {
    IntersectionAtMostAreas(a, b);
  }

  /** IoU of well-formed boxes is a ratio in [0, 1], and 1 for a box against itself. */
  lemma IouRange(a: BBox, b: BBox)
    requires WellFormed(a) && WellFormed(b) && Union(a, b) != 0.0
    ensures 0.0 <= Iou(a, b) <= 1.0
    ensures a == b ==> Iou(a, b) == 1.0
  {
    UnionBounds(a, b);
    IntersectionAtMostAreas(a, b);
    assert Intersection(a, b) <= Union(a, b);
    DivAtMostOne(Intersection(a, b), Union(a, b));
    if a == b {
      SelfIntersection(a);
    }
  }

  /**
   * Relaxed IoU of well-formed boxes lies in [0, 1]; a box inside another has
   * relaxed IoU exactly 1 with it (this is how the detector's NMS drops boxes
   * nested in a better one).
   */
  lemma RelaxedIouRange(a: BBox, b: BBox)
    requires WellFormed(a) && WellFormed(b) && Min(Area(a), Area(b)) != 0.0
    ensures 0.0 <= RelaxedIou(a, b) <= 1.0
    ensures Contains(a, b) ==> RelaxedIou(a, b) == 1.0
    ensures Contains(b, a) ==> RelaxedIou(a, b) == 1.0
  {
    IntersectionAtMostAreas(a, b);
    DivAtMostOne(Intersection(a, b), Min(Area(a), Area(b)));
    if Contains(a, b) {
      ContainedIntersection(a, b);
    }
    if Contains(b, a) {
      ContainedIntersection(b, a);
      IntersectionSymmetric(a, b);
    }
  }

  /** The weighted distance is symmetric. */
  lemma DistanceSymmetric(a: BBox, b: BBox, xWeight: real, yWeight: real)
    ensures Distance(a, b, xWeight, yWeight) == Distance(b, a, xWeight, yWeight)
  {
    var (ax, ay) := Center(a);
    var (cx, cy) := Center(b);
    assert (ax - cx) * (ax - cx) == (cx - ax) * (cx - ax);
    assert (ay - cy) * (ay - cy) == (cy - ay) * (cy - ay);
  }

  /** Merging is commutative and a box merged with one it contains is unchanged. */
  lemma MergeProperties(a: BBox, b: BBox)
    ensures Merge(a, b) == Merge(b, a)
    ensures Contains(a, b) ==> Merge(a, b) == a
  {
  }
}
