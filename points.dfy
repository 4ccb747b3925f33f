/** Cell coordinates and the fixed table of neighbour offsets.
    Throughout, `x` is the row and `y` the column of a cell. */
module Points {

  /** A 2-D integer position; arithmetic on it is unconstrained, bounds are
      the grid's business. */
  datatype Point = Point(x: int, y: int) {
    /** Component-wise translation by `d`. */
    function Add(d: Point): Point {
      Point(x + d.x, y + d.y)
    }
  }

  const Origin := Point(0, 0)

  /** The `neighbors` table, in its declaration order: n, s, w, e, nw, ne, sw, se. */
  const Neighbors: seq<Point> := [
    Point(0, -1), Point(0, 1), Point(-1, 0), Point(1, 0),
    Point(-1, -1), Point(1, -1), Point(-1, 1), Point(1, 1)
  ]

  /** `q` is one of the eight cells that touch `p` (diagonals included). */
  predicate Adjacent(p: Point, q: Point) {
    q != p && -1 <= q.x - p.x <= 1 && -1 <= q.y - p.y <= 1
  }

  /** The table holds eight distinct offsets, and they are exactly the
      non-zero offsets with both components in -1..1. */
  lemma NeighborsTable()
    ensures |Neighbors| == 8
    ensures forall k, l :: 0 <= k < l < |Neighbors| ==> Neighbors[k] != Neighbors[l]
    ensures forall d :: d in Neighbors <==> Adjacent(Origin, d)
  {
    forall d | Adjacent(Origin, d)
      ensures d in Neighbors
    {
      if d.x == -1 {
        assert d == Neighbors[2] || d == Neighbors[4] || d == Neighbors[6];
      } else if d.x == 0 {
        assert d == Neighbors[0] || d == Neighbors[1];
      } else {
        assert d == Neighbors[3] || d == Neighbors[5] || d == Neighbors[7];
      }
    }
  }

  /** Translating `p` by the eight offsets yields eight distinct points, and
      these are exactly the cells adjacent to `p`. */
  lemma NeighborsOfPoint(p: Point)
    ensures |Neighbors| == 8
    ensures forall k :: 0 <= k < |Neighbors| ==> Adjacent(p, p.Add(Neighbors[k]))
    ensures forall k, l :: 0 <= k < l < |Neighbors| ==> p.Add(Neighbors[k]) != p.Add(Neighbors[l])
    ensures forall q :: Adjacent(p, q) ==> exists k :: 0 <= k < |Neighbors| && q == p.Add(Neighbors[k])
  {
    NeighborsTable();
    forall k | 0 <= k < |Neighbors|
      ensures Adjacent(p, p.Add(Neighbors[k]))
    {
      assert Adjacent(Origin, Neighbors[k]);
    }
    forall q | Adjacent(p, q)
      ensures exists k :: 0 <= k < |Neighbors| && q == p.Add(Neighbors[k])
    {
      var d := Point(q.x - p.x, q.y - p.y);
      assert Adjacent(Origin, d);
      var k :| 0 <= k < |Neighbors| && Neighbors[k] == d;
      assert q == p.Add(Neighbors[k]);
    }
  }
}
