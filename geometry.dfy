/** Points in the plane and the Euclidean distances between them. */
module Geometry {
  datatype Point = Point(x: real, y: real)

  /** The radicand of the Euclidean distance: never negative, symmetric in its two points. */
  function SquaredDistance(p: Point, q: Point): (d: real)
    ensures d >= 0.0
    ensures d == (p.x - q.x) * (p.x - q.x) + (p.y - q.y) * (p.y - q.y)
  {
    (q.x - p.x) * (q.x - p.x) + (q.y - p.y) * (q.y - p.y)
  }

  /** Euclidean distance between two locations; `sqrt` is the platform square root. */
  function Distance(p: Point, q: Point, sqrt: real -> real): real
  {
    sqrt(SquaredDistance(p, q))
  }

  /** Sum of the distances between consecutive points of `ls`. */
  function PathLength(ls: seq<Point>, sqrt: real -> real): real
    decreases |ls|
  {
    if |ls| <= 1 then 0.0
    else PathLength(ls[..|ls| - 1], sqrt) + Distance(ls[|ls| - 2], ls[|ls| - 1], sqrt)
  }

}
