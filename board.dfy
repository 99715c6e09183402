/** The board of src/board.py: a square grid of cells written in place, with its queries. */
module Boards {
  import opened Stones
  import opened Geometry
  import opened Grids

  /** a comes strictly before b when the board is read row by row. */
  predicate RowMajorBefore(a: Coord, b: Coord) {
    a.0 < b.0 || (a.0 == b.0 && a.1 < b.1)
  }

  class Board {
    /** board_size: the number of rows and of columns. */
    const size: nat
    /** The cells, written in place by place_stone and remove_stone. */
    const grid: array2<Stone>

    ghost predicate Valid() {
      grid.Length0 == size && grid.Length1 == size
    }

    /** The cells as a value. */
    ghost function Cells(): (g: Grid)
      requires Valid()
      reads grid
      ensures Square(g) && |g| == size
      ensures forall y, x :: 0 <= y < size && 0 <= x < size ==> g[y][x] == grid[y, x]
    {
      seq(size, y requires 0 <= y < size reads grid =>
        seq(size, x requires 0 <= x < size reads grid => grid[y, x]))
    }

    /** A new board has every cell empty. */
    constructor (size: nat)
      ensures Valid() && this.size == size && fresh(grid)
      ensures Empties(Cells()) == AllCoords(size)
    {
      this.size := size;
      grid := new Stone[size, size]((y, x) => Empty);
    }

    /** place_stone: atomic; either the empty target cell takes the stone, or an error is
        returned and no cell changes. */
    method PlaceStone(stone: Stone, y: int, x: int) returns (r: Result<()>)
      requires Valid()
      modifies grid
      ensures !InBounds(size, y, x) ==> r == Err(InvalidPosition) && Cells() == old(Cells())
      ensures InBounds(size, y, x) && old(grid[y, x]) != Empty ==>
                r == Err(PositionOccupied) && Cells() == old(Cells())
      ensures InBounds(size, y, x) && old(grid[y, x]) == Empty ==>
                r == Ok(()) && Cells() == SetCell(old(Cells()), (y, x), stone)
    {
      if 0 <= y < size && 0 <= x < size {
        if grid[y, x] != Empty {
          return Err(PositionOccupied);
        } else {
          ghost var before := Cells();
          grid[y, x] := stone;
          GridsEqual(Cells(), SetCell(before, (y, x), stone));
          return Ok(());
        }
      } else {
        return Err(InvalidPosition);
      }
    }

    /** remove_stone: the cell at (y, x) becomes empty and no other cell changes. */
    method RemoveStone(y: int, x: int)
      requires Valid() && InBounds(size, y, x)
      modifies grid
      ensures Cells() == SetCell(old(Cells()), (y, x), Empty)
    {
      ghost var before := Cells();
      grid[y, x] := Empty;
      GridsEqual(Cells(), SetCell(before, (y, x), Empty));
    }

    /** _is_legal_move: any empty cell is legal, whatever the colour; the bounds test is
        is_within_bounds, so row or column size passes it and the grid read then fails. */
    function IsLegalMove(stone: Stone, y: int, x: int): (r: Result<bool>)
      requires Valid()
      reads grid
      ensures !IsWithinBounds(size, y, x) ==> r == Ok(false)
      ensures IsWithinBounds(size, y, x) && !InBounds(size, y, x) ==> r == Err(IndexError)
      ensures InBounds(size, y, x) ==> r.Ok? && (r.value <==> (y, x) in Empties(Cells()))
    {
      if !IsWithinBounds(size, y, x) then Ok(false)
      else if y == size || x == size then Err(IndexError)
      else Ok(grid[y, x] == Empty)
    }

    /** get_legal_actions: every empty cell exactly once, in row-major order. */
    method GetLegalActions(stone: Stone) returns (actions: seq<Coord>)
      requires Valid()
      ensures forall c :: c in actions <==> c in Empties(Cells())
      ensures forall i, j :: 0 <= i < j < |actions| ==> RowMajorBefore(actions[i], actions[j])
    {
      ghost var g := Cells();
      actions := [];
      for y := 0 to size
        invariant forall c :: c in actions <==> c in Empties(g) && c.0 < y
        invariant forall i :: 0 <= i < |actions| ==> actions[i].0 < y
        invariant forall i, j :: 0 <= i < j < |actions| ==> RowMajorBefore(actions[i], actions[j])
      {
        for x := 0 to size
          invariant forall c :: c in actions <==> c in Empties(g) && RowMajorBefore(c, (y, x))
          invariant forall i :: 0 <= i < |actions| ==> RowMajorBefore(actions[i], (y, x))
          invariant forall i, j :: 0 <= i < j < |actions| ==> RowMajorBefore(actions[i], actions[j])
        {
          if IsLegalMove(stone, y, x).value {
            actions := actions + [(y, x)];
          }
        }
      }
    }

    /** _group_is_captured: true exactly when no cell of the group at (y, x) has an empty
        neighbour. A stack drives the search and `visited` only grows within the board. */
    method GroupIsCaptured(y: int, x: int) returns (captured: bool)
      requires Valid() && InBounds(size, y, x)
      ensures captured <==> forall c :: c in Group(Cells(), (y, x)) ==> !HasLiberty(Cells(), c)
    {
      ghost var g := Cells();
      var stone := grid[y, x];
      var visited: set<Coord> := {};
      var queue: seq<Coord> := [(y, x)];
      SearchStart(g, stone, (y, x));
      while queue != []
        invariant Searching(g, stone, (y, x), visited, queue)
        decreases AllCoords(size) - visited, |queue|
      {
        var cur := queue[|queue| - 1];
        queue := queue[..|queue| - 1];
        SearchPop(g, stone, (y, x), visited, queue, cur);
        if cur in visited {
          continue;
        }
        var nbrs := LibertyCoords(size, cur.0, cur.1);
        var free, pushed := ScanCells(stone, nbrs, visited + {cur});
        NeighboursScanned(g, stone, cur, nbrs, free, visited + {cur}, pushed);
        if free {
          return false;
        }
        SearchVisit(g, stone, (y, x), visited, queue, cur, pushed);
        visited := visited + {cur};
        queue := queue + pushed;
      }
      SearchDone(g, stone, (y, x), visited);
      return true;
    }

    /** The inner loop of _group_is_captured over the listed neighbours `nbrs`: it stops at
        the first empty one, and otherwise lists, to be pushed, every one of colour `stone`
        not yet visited. */
    method ScanCells(stone: Stone, nbrs: seq<Coord>, visited: set<Coord>)
      returns (free: bool, pushed: seq<Coord>)
      requires Valid() && forall c :: c in nbrs ==> InBounds(size, c.0, c.1)
      ensures free <==> exists j :: 0 <= j < |nbrs| && At(Cells(), nbrs[j]) == Empty
      ensures forall k :: 0 <= k < |pushed| ==>
                pushed[k] in nbrs && pushed[k] !in visited && At(Cells(), pushed[k]) == stone
      ensures !free ==> forall j :: 0 <= j < |nbrs| && At(Cells(), nbrs[j]) == stone ==>
                nbrs[j] in visited || nbrs[j] in pushed
    {
      ghost var g := Cells();
      pushed := [];
      for i := 0 to |nbrs|
        invariant forall k :: 0 <= k < |pushed| ==>
                    pushed[k] in nbrs && pushed[k] !in visited && At(g, pushed[k]) == stone
        invariant forall j :: 0 <= j < i ==> At(g, nbrs[j]) != Empty
        invariant forall j :: 0 <= j < i && At(g, nbrs[j]) == stone ==>
                    nbrs[j] in visited || nbrs[j] in pushed
      {
        var nb := nbrs[i];
        assert nb in nbrs;
        if grid[nb.0, nb.1] == Empty {
          return true, pushed;
        } else if grid[nb.0, nb.1] == stone && nb !in visited {
          pushed := pushed + [nb];
        }
      }
      return false, pushed;
    }
  }

  /** What the scan of the neighbours listed by get_liberty_coords tells about cur: it found an
      empty one exactly when cur has a liberty; the cells it pushes are col-neighbours of cur;
      and when it found none, every col-neighbour of cur is visited or pushed. */
  lemma NeighboursScanned(g: Grid, col: Stone, cur: Coord, nbrs: seq<Coord>, free: bool,
                          visited: set<Coord>, pushed: seq<Coord>)
    requires Square(g) && InBounds(|g|, cur.0, cur.1) && nbrs == LibertyCoords(|g|, cur.0, cur.1)
    requires free <==> exists j :: 0 <= j < |nbrs| && At(g, nbrs[j]) == Empty
    requires forall k :: 0 <= k < |pushed| ==> pushed[k] in nbrs && At(g, pushed[k]) == col
    requires !free ==> forall j :: 0 <= j < |nbrs| && At(g, nbrs[j]) == col ==>
               nbrs[j] in visited || nbrs[j] in pushed
    ensures free <==> HasLiberty(g, cur)
    ensures forall k :: 0 <= k < |pushed| ==>
              InBounds(|g|, pushed[k].0, pushed[k].1) && Adjacent(cur, pushed[k]) && At(g, pushed[k]) == col
    ensures !free ==> forall nb: Coord ::
              InBounds(|g|, nb.0, nb.1) && Adjacent(cur, nb) && At(g, nb) == col ==> nb in visited || nb in pushed
  {
    LibertyCoordsComplete(|g|, cur.0, cur.1);
    if free {
      var j :| 0 <= j < |nbrs| && At(g, nbrs[j]) == Empty;
      assert nbrs[j] in nbrs;
    } else {
      forall nb: Coord | InBounds(|g|, nb.0, nb.1) && Adjacent(cur, nb)
        ensures At(g, nb) != Empty && (At(g, nb) == col ==> nb in visited || nb in pushed)
      {
        var j :| 0 <= j < |nbrs| && nbrs[j] == nb;
      }
    }
  }

  /** Every col-neighbour of a visited cell is visited or waits in the queue. */
  ghost predicate Frontier(g: Grid, col: Stone, visited: set<Coord>, queue: seq<Coord>)
    requires Square(g)
  {
    forall c: Coord, nb: Coord ::
      c in visited && InBounds(|g|, nb.0, nb.1) && Adjacent(c, nb) && At(g, nb) == col
      ==> nb in visited || nb in queue
  }

  /** The invariant of the search from `seed` in _group_is_captured: everything visited or
      queued lies in the seed's component, the seed has been reached, no visited cell has a
      liberty, and the frontier is closed. */
  ghost predicate Searching(g: Grid, col: Stone, seed: Coord, visited: set<Coord>, queue: seq<Coord>)
    requires Square(g)
  {
    && visited <= Component(g, col, seed)
    && (forall c :: c in queue ==> c in Component(g, col, seed))
    && (seed in visited || seed in queue)
    && (forall c :: c in visited ==> !HasLiberty(g, c))
    && Frontier(g, col, visited, queue)
  }

  lemma SearchStart(g: Grid, col: Stone, seed: Coord)
    requires Square(g) && InBounds(|g|, seed.0, seed.1) && At(g, seed) == col
    ensures Searching(g, col, seed, {}, [seed])
  {
    ConnectedRefl(g, col, seed);
  }

  /** Popping the top of the stack: the popped cell is a member of the component, and if it
      was visited already the invariant holds without it. */
  lemma SearchPop(g: Grid, col: Stone, seed: Coord, visited: set<Coord>, queue: seq<Coord>, cur: Coord)
    requires Square(g) && Searching(g, col, seed, visited, queue + [cur])
    ensures cur in Component(g, col, seed) && InBounds(|g|, cur.0, cur.1) && cur in AllCoords(|g|)
    ensures cur in visited ==> Searching(g, col, seed, visited, queue)
  {
    assert cur in queue + [cur];
    assert forall c :: c in queue ==> c in queue + [cur];
  }

  /** Visiting the popped cell, which has no liberty, and pushing its unvisited col-neighbours
      keeps the invariant. */
  lemma SearchVisit(g: Grid, col: Stone, seed: Coord, visited: set<Coord>, queue: seq<Coord>,
                    cur: Coord, pushed: seq<Coord>)
    requires Square(g) && Searching(g, col, seed, visited, queue + [cur])
    requires !HasLiberty(g, cur)
    requires forall k :: 0 <= k < |pushed| ==>
               InBounds(|g|, pushed[k].0, pushed[k].1) && Adjacent(cur, pushed[k]) && At(g, pushed[k]) == col
    requires forall nb: Coord :: InBounds(|g|, nb.0, nb.1) && Adjacent(cur, nb) && At(g, nb) == col
               ==> nb in visited + {cur} || nb in pushed
    ensures Searching(g, col, seed, visited + {cur}, queue + pushed)
  {
    var comp := Component(g, col, seed);
    assert cur in queue + [cur];
    assert Connected(g, col, seed, cur);
    forall c | c in pushed ensures c in comp {
      var k :| 0 <= k < |pushed| && pushed[k] == c;
      ConnectedStep(g, col, seed, cur, c);
    }
    forall c | c in queue ensures c in comp {
      assert c in queue + [cur];
    }
  }

  /** An exhausted search has visited the whole component, none of which has a liberty. */
  lemma SearchDone(g: Grid, col: Stone, seed: Coord, visited: set<Coord>)
    requires Square(g) && Searching(g, col, seed, visited, [])
    ensures forall c :: c in Component(g, col, seed) ==> !HasLiberty(g, c)
  {
    ClosedContainsComponent(g, col, visited, seed);
  }
}
