/** Wall segments (`Boundary`) and the arena built from the window rectangle. */
module Boundaries {
  import opened Vectors

  /** The segment from `origin` to `origin + length * dir`. */
  datatype Boundary = Boundary(origin: Point2, dir: Vec2, length: real)

  /** nannou's `Rect`: the x range and the y range of the window. */
  datatype Rect = Rect(xStart: real, xEnd: real, yStart: real, yEnd: real)

  /** The point at parameter `s` along the boundary's line. */
  function PointAt(b: Boundary, s: real): Point2 {
    Add(b.origin, Scale(s, b.dir))
  }

  /** The far end of the segment. */
  function End(b: Boundary): Point2 {
    PointAt(b, b.length)
  }

  /** One of the four unit vectors along the axes. */
  predicate AxisUnit(d: Vec2) {
    d == Vec2(1.0, 0.0) || d == Vec2(-1.0, 0.0) || d == Vec2(0.0, 1.0) || d == Vec2(0.0, -1.0)
  }

  /** A proper arena edge: positive length along a unit axis direction. */
  predicate WellFormed(b: Boundary) {
    b.length > 0.0 && AxisUnit(b.dir)
  }

  /** Two distinct points on a common horizontal or vertical line. */
  predicate AxisSegment(start: Point2, end: Point2) {
    start != end && (start.x == end.x || start.y == end.y)
  }

  /** `Boundary::new` for an axis-aligned segment: the origin is `start`, the direction
      is `normalize(end - start)`, which for such a segment is a unit axis vector, and
      the length is `|end - start|`, so the segment ends at `end`. */
  function NewBoundary(start: Point2, end: Point2): (b: Boundary)
    requires AxisSegment(start, end)
    ensures b.origin == start
    ensures WellFormed(b)
    ensures End(b) == end
  {
    if start.x == end.x then
      if start.y < end.y then Boundary(start, Vec2(0.0, 1.0), end.y - start.y)
      else Boundary(start, Vec2(0.0, -1.0), start.y - end.y)
    else
      if start.x < end.x then Boundary(start, Vec2(1.0, 0.0), end.x - start.x)
      else Boundary(start, Vec2(-1.0, 0.0), start.x - end.x)
  }

  /** The same segment described as nannou computes it, without a square root:
      `length` is positive with `length^2 = |end - start|^2`, and `length` times
      the unit direction is `end - start`. These determine `dir` and `length`. */
  lemma NewBoundaryNormalizes(start: Point2, end: Point2)
    requires AxisSegment(start, end)
    ensures var b := NewBoundary(start, end);
            && b.length > 0.0
            && b.length * b.length == DistSq(end, start)
            && Scale(b.length, b.dir) == Sub(end, start)
            && NormSq(b.dir) == 1.0
  {
    assert AxisUnit(NewBoundary(start, end).dir);
    var b := NewBoundary(start, end);
    var d := Sub(end, start);
    if start.x == end.x {
      assert b.length * b.length == d.y * d.y;
    } else {
      assert b.length * b.length == d.x * d.x;
    }
  }

  /** A window rectangle with extent in both directions. */
  predicate ProperRect(r: Rect) {
    r.xStart != r.xEnd && r.yStart != r.yEnd
  }

  /** `Boundary::from_rect`: four well-formed edges, in the source's order and winding:
      (xs, ys) to (xs, ye), (xs, ys) to (xe, ys), (xe, ye) to (xe, ys), (xe, ye) to (xs, ye). */
  function FromRect(r: Rect): (bs: seq<Boundary>)
    requires ProperRect(r)
    ensures |bs| == 4
    ensures forall i :: 0 <= i < |bs| ==> WellFormed(bs[i])
    ensures bs[0].origin == Vec2(r.xStart, r.yStart) && End(bs[0]) == Vec2(r.xStart, r.yEnd)
    ensures bs[1].origin == Vec2(r.xStart, r.yStart) && End(bs[1]) == Vec2(r.xEnd, r.yStart)
    ensures bs[2].origin == Vec2(r.xEnd, r.yEnd) && End(bs[2]) == Vec2(r.xEnd, r.yStart)
    ensures bs[3].origin == Vec2(r.xEnd, r.yEnd) && End(bs[3]) == Vec2(r.xStart, r.yEnd)
  {
    var left := NewBoundary(Vec2(r.xStart, r.yStart), Vec2(r.xStart, r.yEnd));
    var bottom := NewBoundary(Vec2(r.xStart, r.yStart), Vec2(r.xEnd, r.yStart));
    var right := NewBoundary(Vec2(r.xEnd, r.yEnd), Vec2(r.xEnd, r.yStart));
    var top := NewBoundary(Vec2(r.xEnd, r.yEnd), Vec2(r.xStart, r.yEnd));
    [left, bottom, right, top]
  }

  /** A point on the border of a rectangle whose ranges increase. */
  predicate OnPerimeter(r: Rect, p: Point2) {
    && r.xStart <= p.x <= r.xEnd
    && r.yStart <= p.y <= r.yEnd
    && (p.x == r.xStart || p.x == r.xEnd || p.y == r.yStart || p.y == r.yEnd)
  }

  /** Some boundary reaches `p` at a parameter the intersection test accepts, `0 <= s < length`. */
  ghost predicate Covered(bs: seq<Boundary>, p: Point2) {
    exists i, s :: 0 <= i < |bs| && 0.0 <= s < bs[i].length && PointAt(bs[i], s) == p
  }

  /** With the source's winding, the corners (xe, ys) and (xs, ye) are each the far end
      of both edges that meet there, so the half-open test `k < length` leaves them
      outside every edge. */
  lemma FromRectCornerGap(r: Rect)
    requires r.xStart < r.xEnd && r.yStart < r.yEnd
    ensures OnPerimeter(r, Vec2(r.xEnd, r.yStart)) && OnPerimeter(r, Vec2(r.xStart, r.yEnd))
    ensures !Covered(FromRect(r), Vec2(r.xEnd, r.yStart))
    ensures !Covered(FromRect(r), Vec2(r.xStart, r.yEnd))
  {
    var bs := FromRect(r);
    var p, q := Vec2(r.xEnd, r.yStart), Vec2(r.xStart, r.yEnd);
    forall i, s | 0 <= i < |bs| && 0.0 <= s < bs[i].length
      ensures PointAt(bs[i], s) != p && PointAt(bs[i], s) != q
    {
    }
  }

  /** The arena with one consistent winding, each corner the start of exactly one edge:
      (xs, ys) to (xs, ye), (xs, ye) to (xe, ye), (xe, ye) to (xe, ys), (xe, ys) to (xs, ys). */
  function FromRectCyclic(r: Rect): (bs: seq<Boundary>)
    requires ProperRect(r)
    ensures |bs| == 4
    ensures forall i :: 0 <= i < |bs| ==> WellFormed(bs[i])
    ensures bs[0].origin == Vec2(r.xStart, r.yStart) && End(bs[0]) == bs[1].origin
    ensures bs[1].origin == Vec2(r.xStart, r.yEnd) && End(bs[1]) == bs[2].origin
    ensures bs[2].origin == Vec2(r.xEnd, r.yEnd) && End(bs[2]) == bs[3].origin
    ensures bs[3].origin == Vec2(r.xEnd, r.yStart) && End(bs[3]) == bs[0].origin
  {
    [ NewBoundary(Vec2(r.xStart, r.yStart), Vec2(r.xStart, r.yEnd)),
      NewBoundary(Vec2(r.xStart, r.yEnd), Vec2(r.xEnd, r.yEnd)),
      NewBoundary(Vec2(r.xEnd, r.yEnd), Vec2(r.xEnd, r.yStart)),
      NewBoundary(Vec2(r.xEnd, r.yStart), Vec2(r.xStart, r.yStart)) ]
  }

  /** Every point of the border, corners included, lies in the half-open range
      `0 <= s < length` of some edge of the cyclic arena. */
  lemma FromRectCyclicCoversPerimeter(r: Rect, p: Point2)
    requires r.xStart < r.xEnd && r.yStart < r.yEnd
    requires OnPerimeter(r, p)
    ensures Covered(FromRectCyclic(r), p)
  {
    var bs := FromRectCyclic(r);
    if p.x == r.xStart && p.y < r.yEnd {
      assert PointAt(bs[0], p.y - r.yStart) == p;
    } else if p.y == r.yEnd && p.x < r.xEnd {
      assert PointAt(bs[1], p.x - r.xStart) == p;
    } else if p.x == r.xEnd && p.y > r.yStart {
      assert PointAt(bs[2], r.yEnd - p.y) == p;
    } else {
      assert PointAt(bs[3], r.xEnd - p.x) == p;
    }
  }
}
