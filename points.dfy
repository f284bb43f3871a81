/**
 A cell address in the colony's unbounded plane. The source keys its store by
 android.graphics.Point, used only as a pair of integers with structural
 equality; here it is a plain value.
 */
module Points {

  datatype Point = Point(x: int, y: int)

  /** The two addresses touch: they differ, and by at most one on each axis. */
  predicate Adjacent(p: Point, q: Point) {
    p != q && -1 <= q.x - p.x <= 1 && -1 <= q.y - p.y <= 1
  }

  /** The eight addresses of the 3x3 block centred on `p`, the centre left out. */
  function Neighbours(p: Point): (s: set<Point>)
    ensures p !in s
  {
    { Point(p.x - 1, p.y - 1), Point(p.x - 1, p.y), Point(p.x - 1, p.y + 1),
      Point(p.x, p.y - 1),                          Point(p.x, p.y + 1),
      Point(p.x + 1, p.y - 1), Point(p.x + 1, p.y), Point(p.x + 1, p.y + 1) }
  }

  /** The whole 3x3 block centred on `p`. */
  function Block(p: Point): set<Point> {
    Neighbours(p) + {p}
  }

  /** The eight listed addresses are exactly the adjacent ones. */
  lemma NeighboursAreAdjacent(p: Point, q: Point)
    ensures q in Neighbours(p) <==> Adjacent(p, q)
    ensures q in Block(p) <==> q == p || Adjacent(p, q)
  {
  }
}
