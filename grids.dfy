/** The board contents as a value, and 4-connectivity over it: the shared vocabulary of the
    flood fills in src/board.py and src/game.py. */
module Grids {
  import opened Stones
  import opened Geometry

  /** Rows of cells, indexed [y][x]. */
  type Grid = seq<seq<Stone>>

  /** Every row is as long as there are rows. */
  predicate Square(g: Grid) {
    forall y :: 0 <= y < |g| ==> |g[y]| == |g|
  }

  /** The cell at c. */
  function At(g: Grid, c: Coord): Stone
    requires Square(g) && InBounds(|g|, c.0, c.1)
  {
    g[c.0][c.1]
  }

  /** Every coordinate of an n-by-n board. */
  function AllCoords(n: nat): (s: set<Coord>)
    ensures forall c :: c in s <==> InBounds(n, c.0, c.1)
  {
    set y, x | 0 <= y < n && 0 <= x < n :: (y, x)
  }

  /** The empty cells of g. */
  function Empties(g: Grid): (s: set<Coord>)
    requires Square(g)
    ensures forall c :: c in s <==> InBounds(|g|, c.0, c.1) && At(g, c) == Empty
  {
    set c | c in AllCoords(|g|) && At(g, c) == Empty
  }

  /** Two square grids of one size that agree on every cell are equal. */
  lemma GridsEqual(a: Grid, b: Grid)
    requires Square(a) && Square(b) && |a| == |b|
    requires forall c: Coord :: InBounds(|a|, c.0, c.1) ==> At(a, c) == At(b, c)
    ensures a == b
  {
    forall y | 0 <= y < |a| ensures a[y] == b[y] {
      forall x | 0 <= x < |a| ensures a[y][x] == b[y][x] {
        assert At(a, (y, x)) == At(b, (y, x));
      }
    }
  }

  /** g with the cell at c set to s and every other cell as it was. */
  function SetCell(g: Grid, c: Coord, s: Stone): (r: Grid)
    requires Square(g) && InBounds(|g|, c.0, c.1)
    ensures Square(r) && |r| == |g| && At(r, c) == s
    ensures forall d: Coord :: InBounds(|g|, d.0, d.1) && d != c ==> At(r, d) == At(g, d)
  {
    g[c.0 := g[c.0][c.1 := s]]
  }

  /** Writing a stone into an empty cell and then emptying it again gives back the grid. */
  lemma SetCellRestores(g: Grid, c: Coord, s: Stone)
    requires Square(g) && InBounds(|g|, c.0, c.1) && At(g, c) == Empty
    ensures SetCell(SetCell(g, c, s), c, Empty) == g
  {
    GridsEqual(SetCell(SetCell(g, c, s), c, Empty), g);
  }

  /** g with every cell of `cleared` emptied and every other cell as it was. */
  function ClearCells(g: Grid, cleared: set<Coord>): (r: Grid)
    requires Square(g)
    ensures Square(r) && |r| == |g|
    ensures forall d: Coord :: InBounds(|g|, d.0, d.1) ==>
              At(r, d) == if d in cleared then Empty else At(g, d)
  {
    seq(|g|, y requires 0 <= y < |g| =>
      seq(|g|, x requires 0 <= x < |g| => if (y, x) in cleared then Empty else g[y][x]))
  }

  /** Step i of p moves to a cell adjacent to the one before it. */
  ghost predicate Linked(p: seq<Coord>, i: int)
    requires 0 < i < |p|
  {
    Adjacent(p[i - 1], p[i])
  }

  /** p is a walk of neighbouring cells, all on the board and all of colour col. */
  ghost predicate IsPath(g: Grid, col: Stone, p: seq<Coord>)
    requires Square(g)
  {
    && |p| > 0
    && (forall i :: 0 <= i < |p| ==> InBounds(|g|, p[i].0, p[i].1) && At(g, p[i]) == col)
    && (forall i :: 0 < i < |p| ==> Linked(p, i))
  }

  /** a reaches b through cells of colour col. */
  ghost predicate Connected(g: Grid, col: Stone, a: Coord, b: Coord)
    requires Square(g)
  {
    exists p :: IsPath(g, col, p) && p[0] == a && p[|p| - 1] == b
  }

  /** The 4-connected component of colour col that contains a (empty when a is not col). */
  ghost function Component(g: Grid, col: Stone, a: Coord): set<Coord>
    requires Square(g)
  {
    set c | c in AllCoords(|g|) && Connected(g, col, a, c)
  }

  /** The group of the cell at s: its component in its own colour. */
  ghost function Group(g: Grid, s: Coord): set<Coord>
    requires Square(g) && InBounds(|g|, s.0, s.1)
  {
    Component(g, At(g, s), s)
  }

  /** c has an empty neighbour on the board. */
  ghost predicate HasLiberty(g: Grid, c: Coord)
    requires Square(g)
  {
    exists nb: Coord :: InBounds(|g|, nb.0, nb.1) && Adjacent(c, nb) && At(g, nb) == Empty
  }

  /** Every neighbour of colour col of a cell of S is itself in S. */
  ghost predicate Closed(g: Grid, col: Stone, S: set<Coord>)
    requires Square(g)
  {
    forall c: Coord, nb: Coord :: c in S && InBounds(|g|, nb.0, nb.1) && Adjacent(c, nb) && At(g, nb) == col ==> nb in S
  }

  lemma ConnectedRefl(g: Grid, col: Stone, a: Coord)
    requires Square(g) && InBounds(|g|, a.0, a.1) && At(g, a) == col
    ensures Connected(g, col, a, a)
  {
    assert IsPath(g, col, [a]);
  }

  /** A walk from a to b extends by one more neighbour of colour col. */
  lemma ConnectedStep(g: Grid, col: Stone, a: Coord, b: Coord, nb: Coord)
    requires Square(g) && Connected(g, col, a, b)
    requires InBounds(|g|, nb.0, nb.1) && Adjacent(b, nb) && At(g, nb) == col
    ensures Connected(g, col, a, nb)
  {
    var p :| IsPath(g, col, p) && p[0] == a && p[|p| - 1] == b;
    var q := p + [nb];
    forall i | 0 <= i < |q|
      ensures InBounds(|g|, q[i].0, q[i].1) && At(g, q[i]) == col
    {
      if i < |p| {
        assert q[i] == p[i];
      }
    }
    forall i | 0 < i < |q|
      ensures Linked(q, i)
    {
      if i < |p| {
        assert Linked(p, i);
        assert q[i] == p[i] && q[i - 1] == p[i - 1];
      } else {
        assert q[i] == nb && q[i - 1] == b;
      }
    }
    assert IsPath(g, col, q);
  }

  /** Walking a path backwards is a path. */
  lemma ConnectedSymmetric(g: Grid, col: Stone, a: Coord, b: Coord)
    requires Square(g) && Connected(g, col, a, b)
    ensures Connected(g, col, b, a)
  {
    var p :| IsPath(g, col, p) && p[0] == a && p[|p| - 1] == b;
    var q: seq<Coord> := seq(|p|, i requires 0 <= i < |p| => p[|p| - 1 - i]);
    forall i: int | 0 < i < |q|
      ensures Linked(q, i)
    {
      assert Linked(p, |p| - i);
    }
    assert IsPath(g, col, q);
  }

  lemma ConnectedTransitive(g: Grid, col: Stone, a: Coord, b: Coord, c: Coord)
    requires Square(g) && Connected(g, col, a, b) && Connected(g, col, b, c)
    ensures Connected(g, col, a, c)
  {
    var p :| IsPath(g, col, p) && p[0] == a && p[|p| - 1] == b;
    var q :| IsPath(g, col, q) && q[0] == b && q[|q| - 1] == c;
    var r: seq<Coord> := p + q[1..];
    forall i: int | 0 <= i < |r|
      ensures InBounds(|g|, r[i].0, r[i].1) && At(g, r[i]) == col
    {
      if i >= |p| {
        assert r[i] == q[i - |p| + 1];
      } else {
        assert r[i] == p[i];
      }
    }
    forall i: int | 0 < i < |r|
      ensures Linked(r, i)
    {
      if i >= |p| {
        assert Linked(q, i - |p| + 1);
        assert r[i] == q[i - |p| + 1] && r[i - 1] == q[i - |p|];
      } else {
        assert Linked(p, i);
        assert r[i] == p[i] && r[i - 1] == p[i - 1];
      }
    }
    assert IsPath(g, col, r);
  }

  lemma {:induction false} PathStaysIn(g: Grid, col: Stone, S: set<Coord>, p: seq<Coord>, i: nat)
    requires Square(g) && Closed(g, col, S) && IsPath(g, col, p) && p[0] in S && i < |p|
    ensures p[i] in S
  {
    if i > 0 {
      PathStaysIn(g, col, S, p, i - 1);
      assert Linked(p, i);
    }
  }

  /** A set closed under col-neighbours holds everything it reaches through col cells. */
  lemma ClosedContainsConnected(g: Grid, col: Stone, S: set<Coord>, a: Coord, b: Coord)
    requires Square(g) && Closed(g, col, S) && a in S && Connected(g, col, a, b)
    ensures b in S
  {
    var p :| IsPath(g, col, p) && p[0] == a && p[|p| - 1] == b;
    PathStaysIn(g, col, S, p, |p| - 1);
  }

  /** Hence a closed set that holds the seed holds the seed's whole component. */
  lemma ClosedContainsComponent(g: Grid, col: Stone, S: set<Coord>, a: Coord)
    requires Square(g) && Closed(g, col, S) && a in S
    ensures Component(g, col, a) <= S
  {
    forall b | b in Component(g, col, a) ensures b in S {
      ClosedContainsConnected(g, col, S, a, b);
    }
  }

  /** A component is closed under neighbours of its colour. */
  lemma ComponentClosed(g: Grid, col: Stone, a: Coord)
    requires Square(g)
    ensures Closed(g, col, Component(g, col, a))
  {
    forall c: Coord, nb: Coord | c in Component(g, col, a) && InBounds(|g|, nb.0, nb.1) && Adjacent(c, nb)
                   && At(g, nb) == col
      ensures nb in Component(g, col, a)
    {
      ConnectedStep(g, col, a, c, nb);
    }
  }

  /** Every member of a component has that same component. */
  lemma ComponentOfMember(g: Grid, col: Stone, a: Coord, b: Coord)
    requires Square(g) && b in Component(g, col, a)
    ensures Component(g, col, b) == Component(g, col, a)
  {
    ConnectedSymmetric(g, col, a, b);
    forall c | c in Component(g, col, b) ensures c in Component(g, col, a) {
      ConnectedTransitive(g, col, a, b, c);
    }
    forall c | c in Component(g, col, a) ensures c in Component(g, col, b) {
      ConnectedTransitive(g, col, b, a, c);
    }
  }
}
