/** Points and segments with integer coordinates, and the lexicographic point
    order (x first, then y) under which the sweep processes its events. */
module Geometry {

  datatype Point = Point(x: int, y: int)

  /** A segment keeps its endpoints in acquisition order. */
  datatype Segment = Segment(first: Point, last: Point)

  /** compare_lt: strictly before in the (x, y) lexicographic order. */
  predicate CompareLt(a: Point, b: Point)
  {
    a.x < b.x || (a.x == b.x && a.y < b.y)
  }

  /** compare_gt: strictly after in the (x, y) lexicographic order. */
  predicate CompareGt(a: Point, b: Point)
  {
    a.x > b.x || (a.x == b.x && a.y > b.y)
  }

  /** The two comparisons describe one strict total order on points. */
  lemma PointOrder(a: Point, b: Point, c: Point)
    ensures !CompareLt(a, a)
    ensures CompareGt(a, b) <==> CompareLt(b, a)
    ensures CompareLt(a, b) && CompareLt(b, c) ==> CompareLt(a, c)
    ensures a != b ==> CompareLt(a, b) || CompareLt(b, a)
  {
  }

}
