/**
 * The pixel grid of server/img_to_points.py: cells, the eight neighbours of
 * a cell in the order the source lists them, and the on-pixels of a skeleton
 * bitmap (modelled as a two-dimensional boolean array in place of the
 * thinned OpenCV image).
 */
module Grid {
  /** A pixel position (row, column), or its swapped (column, row) form. */
  type Cell = (int, int)

  /** neighbors(x, y): the eight surrounding positions, bounds not checked. */
  function Neighbors(c: Cell): (r: seq<Cell>)
    ensures |r| == 8
  {
    var x := c.0;
    var y := c.1;
    [(x - 1, y), (x + 1, y), (x, y - 1), (x, y + 1), (x - 1, y - 1), (x - 1, y + 1), (x + 1, y - 1), (x + 1, y + 1)]
  }

  /** 8-connectivity: distinct cells at most one step apart in each axis. */
  predicate Adjacent(a: Cell, b: Cell) {
    a != b && -1 <= a.0 - b.0 <= 1 && -1 <= a.1 - b.1 <= 1
  }

  /** The neighbour list is exactly the 8-connected cells, each listed once. */
  lemma NeighborsAreAdjacent(c: Cell, n: Cell)
    ensures n in Neighbors(c) <==> Adjacent(c, n)
    ensures forall i, j :: 0 <= i < j < 8 ==> Neighbors(c)[i] != Neighbors(c)[j]
  {
  }

  /** The stored form of a cell: its coordinates exchanged. */
  function Swap(c: Cell): (r: Cell)
    ensures r.0 == c.1 && r.1 == c.0
  {
    (c.1, c.0)
  }

  lemma AdjacentSymmetric(a: Cell, b: Cell)
    ensures Adjacent(a, b) <==> Adjacent(b, a)
    ensures Adjacent(a, b) <==> Adjacent(Swap(a), Swap(b))
  {
  }

  predicate InBounds(skeleton: array2<bool>, c: Cell) {
    0 <= c.0 < skeleton.Length0 && 0 <= c.1 < skeleton.Length1
  }

  /** A pixel of the skeleton that is set. */
  predicate IsOn(skeleton: array2<bool>, c: Cell)
    reads skeleton
  {
    InBounds(skeleton, c) && skeleton[c.0, c.1]
  }

  /** Every set pixel of the skeleton. */
  ghost function OnPixels(skeleton: array2<bool>): set<Cell>
    reads skeleton
  {
    set x, y | 0 <= x < skeleton.Length0 && 0 <= y < skeleton.Length1 && skeleton[x, y] :: (x, y)
  }

  lemma OnPixelsMember(skeleton: array2<bool>, c: Cell)
    ensures c in OnPixels(skeleton) <==> IsOn(skeleton, c)
  {
    if IsOn(skeleton, c) {
      assert (c.0, c.1) in OnPixels(skeleton);
    }
  }

  /** The square of the Euclidean distance, compared in place of the norm. */
  function SqDist(a: Cell, b: Cell): int
  {
    (a.0 - b.0) * (a.0 - b.0) + (a.1 - b.1) * (a.1 - b.1)
  }
}
