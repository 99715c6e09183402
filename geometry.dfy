/** Board geometry of src/board.py: bounds checks and the four-neighbourhood of a cell. */
module Geometry {
  import opened Stones

  /** (y, x) lies on an n-by-n board: the test place_stone applies. */
  predicate InBounds(n: int, y: int, x: int) {
    0 <= y < n && 0 <= x < n
  }

  /** a and b differ by exactly one in exactly one axis. */
  predicate Adjacent(a: Coord, b: Coord) {
    || (a.0 == b.0 && (a.1 == b.1 + 1 || a.1 + 1 == b.1))
    || (a.1 == b.1 && (a.0 == b.0 + 1 || a.0 + 1 == b.0))
  }

  /** Rank of the step from `from` to `to`: up 0, down 1, left 2, right 3. */
  function Direction(from: Coord, to: Coord): int {
    if to.0 < from.0 then 0
    else if to.0 > from.0 then 1
    else if to.1 < from.1 then 2
    else 3
  }

  /** is_within_bounds: compares with `<=`, so row or column n passes too. */
  function IsWithinBounds(n: int, y: int, x: int): (r: bool)
    ensures InBounds(n, y, x) ==> r
    ensures r ==> 0 <= y && 0 <= x && (InBounds(n, y, x) || y == n || x == n)
  {
    0 <= y <= n && 0 <= x <= n
  }

  /** The off-by-one: the first row past the board is accepted by is_within_bounds. */
  lemma WithinBoundsAdmitsEdge(n: nat)
    ensures IsWithinBounds(n, n, 0) && !InBounds(n, n, 0)
  {
  }

  /** get_liberty_coords: the neighbours up, down, left and right that the board size allows. */
  function LibertyCoords(n: int, y: int, x: int): (r: seq<Coord>)
    ensures |r| <= 4
    ensures InBounds(n, y, x) ==> forall c :: c in r ==> InBounds(n, c.0, c.1)
  {
    (if y > 0 then [(y - 1, x)] else [])
    + (if y < n - 1 then [(y + 1, x)] else [])
    + (if x > 0 then [(y, x - 1)] else [])
    + (if x < n - 1 then [(y, x + 1)] else [])
  }

  /** From a cell of the board, get_liberty_coords lists exactly the adjacent cells of the board. */
  lemma LibertyCoordsComplete(n: int, y: int, x: int)
    requires InBounds(n, y, x)
    ensures forall c :: c in LibertyCoords(n, y, x) <==> InBounds(n, c.0, c.1) && Adjacent(c, (y, x))
  {
    var r := LibertyCoords(n, y, x);
    forall c: Coord | InBounds(n, c.0, c.1) && Adjacent(c, (y, x)) ensures c in r {
      if c.0 < y {
        assert r[0] == c;
      } else if c.0 > y {
        assert c == (y + 1, x);
      } else if c.1 < x {
        assert c == (y, x - 1);
      } else {
        assert c == (y, x + 1);
      }
    }
  }

  /** get_liberty_coords lists the neighbours in the order up, down, left, right. */
  lemma LibertyCoordsOrder(n: int, y: int, x: int)
    ensures var r := LibertyCoords(n, y, x);
      forall i, j :: 0 <= i < j < |r| ==> Direction((y, x), r[i]) < Direction((y, x), r[j])
  {
  }

  /** Adjacency through get_liberty_coords is symmetric between two cells of the board. */
  lemma LibertySymmetric(n: int, a: Coord, b: Coord)
    requires InBounds(n, a.0, a.1) && InBounds(n, b.0, b.1)
    ensures b in LibertyCoords(n, a.0, a.1) <==> a in LibertyCoords(n, b.0, b.1)
  {
    LibertyCoordsComplete(n, a.0, a.1);
    LibertyCoordsComplete(n, b.0, b.1);
  }
}
