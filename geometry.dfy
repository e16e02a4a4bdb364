/** Rectangles, sizes and edge insets, with the CoreGraphics accessors the layout
    uses. CoreGraphics standardises a rectangle before measuring it, so a negative
    width or height counts from the other edge; the accessors below do the same. */
module Geometry {
  datatype Size = Size(width: real, height: real)
  datatype Insets = Insets(top: real, left: real, bottom: real, right: real)
  datatype Rect = Rect(x: real, y: real, width: real, height: real)

  const ZeroInsets: Insets := Insets(0.0, 0.0, 0.0, 0.0)
  const ZeroSize: Size := Size(0.0, 0.0)

  function Min(a: real, b: real): real { if a <= b then a else b }
  function Max(a: real, b: real): real { if a >= b then a else b }

  function MinX(r: Rect): real { if r.width >= 0.0 then r.x else r.x + r.width }
  function MaxX(r: Rect): real { if r.width >= 0.0 then r.x + r.width else r.x }
  function MinY(r: Rect): real { if r.height >= 0.0 then r.y else r.y + r.height }
  function MaxY(r: Rect): real { if r.height >= 0.0 then r.y + r.height else r.y }

  /** CGRectGetHeight: the height of the standardised rectangle. */
  function Height(r: Rect): real { MaxY(r) - MinY(r) }

  /** CGRectIntersectsRect: the two rectangles overlap in both axes
      (rectangles that only share an edge do not intersect). */
  predicate Intersects(a: Rect, b: Rect) {
    MinX(a) < MaxX(b) && MinX(b) < MaxX(a) && MinY(a) < MaxY(b) && MinY(b) < MaxY(a)
  }

  /** `outer` covers `inner` in both axes. */
  predicate Contains(outer: Rect, inner: Rect) {
    MinX(outer) <= MinX(inner) && MaxX(inner) <= MaxX(outer) &&
    MinY(outer) <= MinY(inner) && MaxY(inner) <= MaxY(outer)
  }

  /** CGRectUnion: the bounding box of two rectangles, standardised. */
  function Union(a: Rect, b: Rect): (r: Rect)
    ensures r.width >= 0.0 && r.height >= 0.0
    ensures Contains(r, a) && Contains(r, b)
  {
    var x := Min(MinX(a), MinX(b));
    var y := Min(MinY(a), MinY(b));
    Rect(x, y, Max(MaxX(a), MaxX(b)) - x, Max(MaxY(a), MaxY(b)) - y)
  }

  /** The union is the smallest rectangle covering both arguments. */
  lemma UnionIsSmallest(a: Rect, b: Rect, c: Rect)
    requires Contains(c, a) && Contains(c, b)
    ensures Contains(c, Union(a, b))
  {
  }

  /** A rectangle that meets a covered rectangle meets its cover. */
  lemma IntersectsCover(rect: Rect, outer: Rect, inner: Rect)
    requires Contains(outer, inner) && Intersects(rect, inner)
    ensures Intersects(rect, outer)
  {
  }
}
