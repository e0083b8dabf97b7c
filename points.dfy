/** Grid coordinates and the direction tables used to walk a grid. */
module Points {

  /** A position in a grid: row `y` first, then column `x` (the source's namedtuple order). */
  datatype Point = Point(y: int, x: int)

  /** The vector that leads from `p` to `q`; the inverse of AddPoints. */
  function Offset(p: Point, q: Point): Point
  {
    Point(q.y - p.y, q.x - p.x)
  }

  /** Coordinate-wise sum of two points (`add_points`). */
  function AddPoints(p1: Point, p2: Point): (r: Point)
    ensures Offset(p1, r) == p2
    ensures Offset(p2, r) == p1
  {
    Point(p1.y + p2.y, p1.x + p2.x)
  }

  /** Moving by the offset between two points lands on the second point. */
  lemma AddOffset(p: Point, q: Point)
    ensures AddPoints(p, Offset(p, q)) == q
  {
  }

  /** The four straight steps, in the order down, up, right, left. */
  const Straight: seq<Point> := [Point(1, 0), Point(-1, 0), Point(0, 1), Point(0, -1)]

  /** The four diagonal steps, in the order down-left, down-right, up-left, up-right. */
  const Diagonal: seq<Point> := [Point(1, -1), Point(1, 1), Point(-1, -1), Point(-1, 1)]

  /** The steps a neighbour query walks: straight ones first, then diagonal ones. */
  function Directions(straight: bool, diagonal: bool): (ds: seq<Point>)
    ensures |ds| == (if straight then 4 else 0) + (if diagonal then 4 else 0)
    ensures Point(0, 0) !in ds
  {
    (if straight then Straight else []) + (if diagonal then Diagonal else [])
  }

  /** A straight step changes exactly one coordinate by one; a diagonal step changes both. */
  lemma StepShapes(d: Point)
    ensures d in Straight <==> (d.y == 0 && (d.x == 1 || d.x == -1)) || (d.x == 0 && (d.y == 1 || d.y == -1))
    ensures d in Diagonal <==> (d.y == 1 || d.y == -1) && (d.x == 1 || d.x == -1)
  {
  }
}
