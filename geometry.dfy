/** The value types of the triangulator and its visibility test.
    Coordinates are exact integers, so the sign of the cross product is exact. */
module Geometry {

  /** A polygon vertex; its position in the input sequence is its identity. */
  datatype Point = Point(x: int, y: int)

  /** One output cell: three indices into the input sequence. */
  datatype Triangle = Triangle(v1: int, v2: int, v3: int)

  /** Twice the signed area of the triangle a, b, c: positive when a, b, c turn
      counter-clockwise, negative when they turn clockwise, zero when collinear. */
  function Orientation(a: Point, b: Point, c: Point): int
  {
    (b.x - a.x) * (c.y - a.y) - (b.y - a.y) * (c.x - a.x)
  }

  /** The visibility test: the cross product of p against the directed segment
      p1 -> p2 is strictly positive, which is exactly when p1, p2, p turn clockwise. */
  function IsAbove(p: Point, p1: Point, p2: Point): (r: bool)
    ensures r <==> Orientation(p1, p2, p) < 0
  {
    (p2.y - p1.y) * (p.x - p1.x) - (p2.x - p1.x) * (p.y - p1.y) > 0
  }

  /** The test is strict: a point that is one end of the segment is never above it,
      nor is any point when the segment degenerates to a single point. */
  lemma IsAboveEndpoint(p: Point, p1: Point, p2: Point)
    requires p == p1 || p == p2 || p1 == p2
    ensures !IsAbove(p, p1, p2)
  {
  }

  /** Three points on one vertical line are never above one another. */
  lemma IsAboveVertical(p: Point, p1: Point, p2: Point)
    requires p1.x == p.x && p2.x == p.x
    ensures !IsAbove(p, p1, p2)
  {
  }
}
