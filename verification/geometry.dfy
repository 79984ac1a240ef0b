/** Points, rectangles and the bounding box of a thick line segment.
    Single-precision floats are modelled as reals. */
module Geometry {

  datatype Vec2 = Vec2(x: real, y: real)

  /** A RectangleF: top-left corner and size, y growing downwards. */
  datatype Rect = Rect(x: real, y: real, width: real, height: real) {
    function Right(): real { x + width }
    function Bottom(): real { y + height }
  }

  function Min(a: real, b: real): real { if a < b then a else b }

  function Max(a: real, b: real): real { if a > b then a else b }

  function Abs(a: real): real { if a < 0.0 then -a else a }

  /** Closed containment of a point in a rectangle. */
  predicate Contains(r: Rect, p: Vec2) {
    r.x <= p.x <= r.Right() && r.y <= p.y <= r.Bottom()
  }

  /** Closed-interval intersection of two rectangles on both axes. */
  predicate Overlaps(p: Rect, q: Rect) {
    && p.x <= q.Right() && q.x <= p.Right()
    && p.y <= q.Bottom() && q.y <= p.Bottom()
  }

  /** The bounding box of the segment a-b inflated by radius on every side. */
  function ComputeAABB(a: Vec2, b: Vec2, radius: real): (r: Rect)
    ensures r.width == Abs(a.x - b.x) + 2.0 * radius
    ensures r.height == Abs(a.y - b.y) + 2.0 * radius
    ensures radius >= 0.0 ==> r.width >= 0.0 && r.height >= 0.0
    ensures radius >= 0.0 ==> Contains(r, a) && Contains(r, b)
  {
    var left := Min(a.x, b.x) - radius;
    var top := Min(a.y, b.y) - radius;
    var right := Max(a.x, b.x) + radius;
    var bottom := Max(a.y, b.y) + radius;
    Rect(left, top, right - left, bottom - top)
  }

  /** The box does not depend on which endpoint is called A. */
  lemma AabbSymmetric(a: Vec2, b: Vec2, radius: real)
    ensures ComputeAABB(a, b, radius) == ComputeAABB(b, a, radius)
  {
  }

  /** Every point of the thick segment -- a point of the segment a-b moved by
      at most radius along each axis -- lies inside the box. */
  lemma ThickSegmentInside(a: Vec2, b: Vec2, radius: real, t: real, dx: real, dy: real)
    requires 0.0 <= t <= 1.0
    requires Abs(dx) <= radius && Abs(dy) <= radius
    ensures Contains(ComputeAABB(a, b, radius), Vec2(a.x + t * (b.x - a.x) + dx, a.y + t * (b.y - a.y) + dy))
  {
    var box := ComputeAABB(a, b, radius);
    var sx := a.x + t * (b.x - a.x);
    var sy := a.y + t * (b.y - a.y);
    BetweenEndpoints(a.x, b.x, t);
    BetweenEndpoints(a.y, b.y, t);
    assert -radius <= dx <= radius && -radius <= dy <= radius;
    assert box.x <= sx + dx <= box.Right();
    assert box.y == Min(a.y, b.y) - radius;
    assert Min(a.y, b.y) <= sy;
    assert box.y <= sy + dy <= box.Bottom();
  }

  /** A convex combination of two reals lies between them. */
  lemma BetweenEndpoints(u: real, v: real, t: real)
    requires 0.0 <= t <= 1.0
    ensures Min(u, v) <= u + t * (v - u) <= Max(u, v)
  {
    if u <= v {
      MulNonneg(t, v - u);
      MulNonneg(1.0 - t, v - u);
      assert (1.0 - t) * (v - u) == (v - u) - t * (v - u);
    } else {
      MulNonneg(t, u - v);
      MulNonneg(1.0 - t, u - v);
      assert (1.0 - t) * (u - v) == (u - v) - t * (u - v);
      assert t * (v - u) == -(t * (u - v));
    }
  }

  lemma MulNonneg(x: real, y: real)
    requires x >= 0.0 && y >= 0.0
    ensures x * y >= 0.0
  {
  }
}
