/** Territory scoring as get_scores in src/game.py defines it, stated on grid values: an empty
    cell belongs to a colour when the maximal empty region around it borders stones of that
    colour only, and at least one. */
module Scoring {
  import opened Stones
  import opened Geometry
  import opened Grids

  /** The maximal 4-connected region of empty cells around c. */
  ghost function Region(g: Grid, c: Coord): set<Coord>
    requires Square(g)
  {
    Component(g, Empty, c)
  }

  /** The colours of the stones adjacent to some cell of S. */
  ghost function BorderColours(g: Grid, S: set<Coord>): (b: set<Stone>)
    requires Square(g)
    ensures Empty !in b
  {
    set c, nb | c in S && nb in AllCoords(|g|) && Adjacent(c, nb) && At(g, nb) != Empty :: At(g, nb)
  }

  /** The colours of the stones among the listed cells. */
  ghost function Colours(g: Grid, cells: seq<Coord>): (b: set<Stone>)
    requires Square(g) && forall c :: c in cells ==> InBounds(|g|, c.0, c.1)
    ensures Empty !in b
  {
    set c | c in cells && At(g, c) != Empty :: At(g, c)
  }

  /** c is territory of col: its region borders col and nothing else. */
  ghost predicate Owns(g: Grid, col: Stone, c: Coord)
    requires Square(g)
  {
    BorderColours(g, Region(g, c)) == {col}
  }

  /** The cells of S that are territory of col. */
  ghost function TerritoryIn(g: Grid, S: set<Coord>, col: Stone): set<Coord>
    requires Square(g)
  {
    set c | c in S && Owns(g, col, c)
  }

  /** All territory of col on the board. */
  ghost function Territory(g: Grid, col: Stone): set<Coord>
    requires Square(g)
  {
    TerritoryIn(g, Empties(g), col)
  }

  /** A region is made of empty cells of the board and holds the cell it grows from, when that
      cell is empty. */
  lemma RegionShape(g: Grid, c: Coord)
    requires Square(g) && InBounds(|g|, c.0, c.1) && At(g, c) == Empty
    ensures c in Region(g, c)
    ensures Region(g, c) <= Empties(g)
  {
    ConnectedRefl(g, Empty, c);
    forall d | d in Region(g, c) ensures d in Empties(g) {
      var p :| IsPath(g, Empty, p) && p[0] == c && p[|p| - 1] == d;
    }
  }

  /** Every cell of a region has that same region. */
  lemma RegionOfMember(g: Grid, c: Coord, d: Coord)
    requires Square(g) && d in Region(g, c)
    ensures Region(g, d) == Region(g, c)
  {
    ComponentOfMember(g, Empty, c, d);
  }

  /** Ownership is decided region by region: territory takes in its whole region. */
  lemma TerritoryTakesWholeRegion(g: Grid, col: Stone, c: Coord)
    requires Square(g) && c in Territory(g, col)
    ensures Region(g, c) <= Territory(g, col)
  {
    RegionShape(g, c);
    forall d | d in Region(g, c) ensures d in Territory(g, col) {
      RegionOfMember(g, c, d);
    }
  }

  /** No cell is territory of two colours, so black's and white's territory together count at
      most the empty cells of the board. */
  lemma TerritoriesBounded(g: Grid)
    requires Square(g)
    ensures Territory(g, Black) !! Territory(g, White)
    ensures |Territory(g, Black)| + |Territory(g, White)| <= |Empties(g)|
  {
    var b, w := Territory(g, Black), Territory(g, White);
    forall c | c in b ensures c !in w {
      assert Owns(g, Black, c);
    }
    assert |b + w| == |b| + |w|;
    SubsetCard(b + w, Empties(g));
  }

  /** A subset has no more elements than the set containing it. */
  lemma {:induction false} SubsetCard<T>(a: set<T>, b: set<T>)
    requires a <= b
    ensures |a| <= |b|
    decreases b
  {
    if a != {} {
      var x :| x in a;
      SubsetCard(a - {x}, b - {x});
    }
  }

  /** Every cell of a region is owned by col exactly when the region's seed is. */
  lemma OwnsRegionWide(g: Grid, seed: Coord, col: Stone)
    requires Square(g)
    ensures forall d :: d in Region(g, seed) ==> (Owns(g, col, d) <==> Owns(g, col, seed))
  {
    forall d | d in Region(g, seed) ensures Owns(g, col, d) <==> Owns(g, col, seed) {
      RegionOfMember(g, seed, d);
    }
  }

  /** Adding a whole region R, disjoint from S, to the scanned cells adds R to col's territory
      exactly when R borders col alone. */
  lemma TerritoryGrows(g: Grid, S: set<Coord>, seed: Coord, col: Stone)
    requires Square(g)
    ensures TerritoryIn(g, S + Region(g, seed), col) ==
            TerritoryIn(g, S, col) + (if Owns(g, col, seed) then Region(g, seed) else {})
  {
    OwnsRegionWide(g, seed, col);
  }

  /** So, counted: the territory grows by |R| when R borders col alone and by nothing
      otherwise. */
  lemma TerritoryGrowsBy(g: Grid, S: set<Coord>, seed: Coord, col: Stone)
    requires Square(g) && S !! Region(g, seed)
    ensures |TerritoryIn(g, S + Region(g, seed), col)| ==
            |TerritoryIn(g, S, col)| + (if Owns(g, col, seed) then |Region(g, seed)| else 0)
  {
    TerritoryGrows(g, S, seed, col);
    var extra := if Owns(g, col, seed) then Region(g, seed) else {};
    assert TerritoryIn(g, S, col) !! extra;
  }

  /** Processing one more cell c adds the stones get_liberty_coords finds around c to the
      colours bordering the processed cells. */
  lemma BorderColoursGrow(g: Grid, S: set<Coord>, c: Coord, stone: Option<Stone>, neutral: bool)
    requires Square(g) && InBounds(|g|, c.0, c.1)
    requires Summarises(BorderColours(g, S) + Colours(g, LibertyCoords(|g|, c.0, c.1)), stone, neutral)
    ensures Summarises(BorderColours(g, S + {c}), stone, neutral)
  {
    ColoursOfNeighbours(g, c);
    assert BorderColours(g, S + {c}) == BorderColours(g, S) + BorderColours(g, {c});
  }

  /** The stones among the cells get_liberty_coords lists for c are the stones bordering c. */
  lemma ColoursOfNeighbours(g: Grid, c: Coord)
    requires Square(g) && InBounds(|g|, c.0, c.1)
    ensures Colours(g, LibertyCoords(|g|, c.0, c.1)) == BorderColours(g, {c})
  {
    LibertyCoordsComplete(|g|, c.0, c.1);
    var nbrs := LibertyCoords(|g|, c.0, c.1);
    forall s | s in BorderColours(g, {c}) ensures s in Colours(g, nbrs) {
      var nb :| nb in AllCoords(|g|) && Adjacent(c, nb) && At(g, nb) != Empty && At(g, nb) == s;
      assert Adjacent(nb, c);
    }
    forall s | s in Colours(g, nbrs) ensures s in BorderColours(g, {c}) {
      var nb :| nb in nbrs && At(g, nb) != Empty && At(g, nb) == s;
      assert Adjacent(c, nb);
    }
  }

  /** What traverse knows of the colours `seen` around the region so far: `stone` is None
      while no stone has been seen and otherwise a colour seen, and `neutral` is set exactly
      when both colours have been seen. */
  predicate Summarises(seen: set<Stone>, stone: Option<Stone>, neutral: bool) {
    && Empty !in seen
    && (stone.None? <==> seen == {})
    && (stone.Some? ==> stone.value in seen)
    && (neutral <==> seen == {Black, White})
  }

  /** One neighbour inspected by traverse: a stone keeps the first colour seen (`stone or
      this_stone`) and a different colour makes the region neutral. */
  function Observe(stone: Option<Stone>, neutral: bool, s: Stone): (r: (Option<Stone>, bool))
    ensures s == Empty ==> r == (stone, neutral)
    ensures stone.Some? ==> r.0 == stone
    ensures s != Empty ==> r.0.Some?
    ensures s != Empty ==> (r.1 <==> neutral || r.0.value != s)
  {
    if s == Empty then (stone, neutral)
    else
      var first := if stone.None? then Some(s) else stone;
      (first, neutral || first.value != s)
  }

  /** Observe keeps the summary in step with the colours seen. */
  lemma ObserveSummarises(seen: set<Stone>, stone: Option<Stone>, neutral: bool, s: Stone)
    requires Summarises(seen, stone, neutral)
    ensures Summarises(seen + (if s == Empty then {} else {s}), Observe(stone, neutral, s).0,
                       Observe(stone, neutral, s).1)
  {
    if s != Empty && stone.Some? && stone.value != s {
      assert seen + {s} == {Black, White} by {
        assert stone.value in seen && s in seen + {s};
        forall t | t in seen + {s} ensures t == Black || t == White {
        }
      }
    } else if s != Empty && stone.Some? {
      assert seen + {s} == seen;
    }
  }

  /** A set of stone colours is one of the four subsets of {Black, White}. */
  lemma ColourSets(seen: set<Stone>)
    requires Empty !in seen
    ensures seen == {} || seen == {Black} || seen == {White} || seen == {Black, White}
  {
    assert forall t :: t in seen ==> t == Black || t == White;
    if Black in seen && White in seen {
      assert seen == {Black, White};
    } else if Black in seen {
      assert seen == {Black};
    } else if White in seen {
      assert seen == {White};
    } else {
      assert seen == {};
    }
  }

  /** The summary at the end of traverse decides the outcome: no stone, one colour, or both. */
  lemma SummaryDecides(seen: set<Stone>, stone: Option<Stone>, neutral: bool)
    requires Summarises(seen, stone, neutral)
    ensures seen == {} || seen == {Black} || seen == {White} || seen == {Black, White}
    ensures stone.Some? && !neutral ==> seen == {stone.value}
  {
    ColourSets(seen);
  }

  /** The empty cells among the listed cells. */
  ghost function EmptyAmong(g: Grid, cells: seq<Coord>): (r: set<Coord>)
    requires Square(g) && forall c :: c in cells ==> InBounds(|g|, c.0, c.1)
    ensures r <= Empties(g)
  {
    set c | c in cells && At(g, c) == Empty
  }

  /** A region meets no set of cells that is closed under empty neighbours and misses the
      region's own empty seed. */
  lemma RegionDisjoint(g: Grid, E: set<Coord>, seed: Coord)
    requires Square(g) && InBounds(|g|, seed.0, seed.1) && At(g, seed) == Empty
    requires Closed(g, Empty, E) && seed !in E
    ensures E !! Region(g, seed)
  {
    forall d | d in E && d in Region(g, seed) ensures false {
      ConnectedSymmetric(g, Empty, seed, d);
      ClosedContainsConnected(g, Empty, E, d, seed);
    }
  }

  /** Adding a region to a set closed under empty neighbours keeps it closed. */
  lemma ClosedAddRegion(g: Grid, E: set<Coord>, seed: Coord)
    requires Square(g) && Closed(g, Empty, E)
    ensures Closed(g, Empty, E + Region(g, seed))
  {
    ComponentClosed(g, Empty, seed);
  }

  /** The state of traverse from `seed` with the cells E0 marked by earlier traversals:
      `reached` holds the region cells marked so far, of which `processed` have had their
      neighbours inspected and the rest wait on the `search` stack; the marked empty cells are
      E0 and `reached`; and every empty neighbour of a processed cell is reached. */
  ghost predicate Exploring(g: Grid, seed: Coord, E0: set<Coord>, reached: set<Coord>,
                            processed: set<Coord>, search: seq<Coord>, marked: set<Coord>)
    requires Square(g)
  {
    && Closed(g, Empty, E0)
    && E0 !! Region(g, seed)
    && seed in reached
    && reached <= Region(g, seed)
    && marked == E0 + reached
    && processed <= reached
    && (forall c :: c in search ==> c in reached)
    && (forall c :: c in reached ==> c in processed || c in search)
    && (forall c: Coord, nb: Coord ::
          c in processed && InBounds(|g|, nb.0, nb.1) && Adjacent(c, nb) && At(g, nb) == Empty
          ==> nb in reached)
  }

  /** traverse starts with its seed marked and on the stack. */
  lemma ExploreStart(g: Grid, seed: Coord, E0: set<Coord>)
    requires Square(g) && InBounds(|g|, seed.0, seed.1) && At(g, seed) == Empty
    requires Closed(g, Empty, E0) && seed !in E0
    ensures Exploring(g, seed, E0, {seed}, {}, [seed], E0 + {seed})
  {
    RegionShape(g, seed);
    RegionDisjoint(g, E0, seed);
  }

  /** The cell on top of the stack is a reached cell of the region. */
  lemma ExplorePop(g: Grid, seed: Coord, E0: set<Coord>, reached: set<Coord>,
                   processed: set<Coord>, stack: seq<Coord>, marked: set<Coord>)
    requires Square(g) && stack != [] && Exploring(g, seed, E0, reached, processed, stack, marked)
    ensures var cur := stack[|stack| - 1];
            cur in reached && InBounds(|g|, cur.0, cur.1) && At(g, cur) == Empty
  {
    var cur := stack[|stack| - 1];
    assert cur in stack;
    var p :| IsPath(g, Empty, p) && p[0] == seed && p[|p| - 1] == cur;
  }

  /** The empty neighbours of a cell of the region belong to the region. */
  lemma EmptyNeighboursInRegion(g: Grid, seed: Coord, cur: Coord)
    requires Square(g) && InBounds(|g|, cur.0, cur.1) && cur in Region(g, seed)
    ensures EmptyAmong(g, LibertyCoords(|g|, cur.0, cur.1)) <= Region(g, seed)
  {
    var nbrs := LibertyCoords(|g|, cur.0, cur.1);
    LibertyCoordsComplete(|g|, cur.0, cur.1);
    forall nb | nb in EmptyAmong(g, nbrs) ensures nb in Region(g, seed) {
      ConnectedStep(g, Empty, seed, cur, nb);
      assert nb in AllCoords(|g|) && Adjacent(nb, cur);
    }
  }

  /** The empty neighbours of a reached cell `cur` are, once its neighbours are inspected,
      all reached: either marked before (and then reached, since the region misses E0) or
      newly marked now. */
  lemma NeighboursReached(g: Grid, seed: Coord, E0: set<Coord>, reached: set<Coord>,
                          cur: Coord, marked: set<Coord>, newly: set<Coord>)
    requires Square(g) && InBounds(|g|, cur.0, cur.1) && cur in Region(g, seed)
    requires E0 !! Region(g, seed) && marked == E0 + reached
    requires newly == EmptyAmong(g, LibertyCoords(|g|, cur.0, cur.1)) - marked
    ensures newly <= Region(g, seed) && reached !! newly && newly <= AllCoords(|g|)
    ensures forall nb: Coord :: InBounds(|g|, nb.0, nb.1) && Adjacent(cur, nb) && At(g, nb) == Empty
              ==> nb in reached + newly
  {
    var nbrs := LibertyCoords(|g|, cur.0, cur.1);
    EmptyNeighboursInRegion(g, seed, cur);
    LibertyCoordsComplete(|g|, cur.0, cur.1);
    forall nb: Coord | InBounds(|g|, nb.0, nb.1) && Adjacent(cur, nb) && At(g, nb) == Empty
      ensures nb in reached + newly
    {
      assert nb in EmptyAmong(g, nbrs);
    }
  }

  /** Popping `cur` off the stack and inspecting its neighbours marks them, pushes those that
      are empty and were unmarked (`newly`), and keeps the state of traverse. */
  lemma ExploreStep(g: Grid, seed: Coord, E0: set<Coord>, reached: set<Coord>,
                    processed: set<Coord>, stack: seq<Coord>, marked: set<Coord>,
                    newly: set<Coord>, search': seq<Coord>)
    requires Square(g) && stack != [] && Exploring(g, seed, E0, reached, processed, stack, marked)
    requires var cur := stack[|stack| - 1];
             InBounds(|g|, cur.0, cur.1) &&
             newly == EmptyAmong(g, LibertyCoords(|g|, cur.0, cur.1)) - marked
    requires forall c :: c in search' <==> c in stack[..|stack| - 1] || c in newly
    ensures reached !! newly && newly <= AllCoords(|g|)
    ensures var cur := stack[|stack| - 1];
            Exploring(g, seed, E0, reached + newly, processed + {cur}, search',
                      marked + EmptyAmong(g, LibertyCoords(|g|, cur.0, cur.1)))
  {
    var cur := stack[|stack| - 1];
    ExplorePop(g, seed, E0, reached, processed, stack, marked);
    NeighboursReached(g, seed, E0, reached, cur, marked, newly);
    PopCovers(reached, processed, stack, newly, search');
  }

  /** A reached cell is still processed or waiting once the top of the stack is processed. */
  lemma PopCovers(reached: set<Coord>, processed: set<Coord>, stack: seq<Coord>,
                  newly: set<Coord>, search': seq<Coord>)
    requires stack != [] && forall c :: c in reached ==> c in processed || c in stack
    requires forall c :: c in search' <==> c in stack[..|stack| - 1] || c in newly
    ensures forall c :: c in reached ==> c in processed + {stack[|stack| - 1]} || c in search'
  {
    var cur := stack[|stack| - 1];
    var search := stack[..|stack| - 1];
    assert stack == search + [cur];
    forall c | c in reached ensures c in processed + {cur} || c in search' {
      assert c in processed || c in search + [cur];
    }
  }

  /** Reaching new cells of a finite set leaves strictly fewer of its cells unreached. */
  lemma FewerUnreached(all: set<Coord>, reached: set<Coord>, newly: set<Coord>)
    requires newly != {} && newly <= all && reached !! newly
    ensures all - (reached + newly) < all - reached
  {
    var c :| c in newly;
    assert c in all - reached && c !in all - (reached + newly);
  }

  /** One round of the while-loop of traverse, given what the neighbour loop established
      about the popped cell: the search state, the count and the colour summary are kept, and
      either more of the board is reached or the stack shrinks. */
  lemma ExpandRound(g: Grid, seed: Coord, E0: set<Coord>, reached: set<Coord>,
                    processed: set<Coord>, stack: seq<Coord>, marked: set<Coord>, count: int,
                    newly: set<Coord>, search': seq<Coord>, count': int, stone: Option<Stone>,
                    neutral: bool)
    requires Square(g) && stack != [] && Exploring(g, seed, E0, reached, processed, stack, marked)
    requires count == |reached|
    requires var cur := stack[|stack| - 1];
             && InBounds(|g|, cur.0, cur.1)
             && newly == EmptyAmong(g, LibertyCoords(|g|, cur.0, cur.1)) - marked
             && Summarises(BorderColours(g, processed) + Colours(g, LibertyCoords(|g|, cur.0, cur.1)),
                           stone, neutral)
    requires forall c :: c in search' <==> c in stack[..|stack| - 1] || c in newly
    requires count' == count + |newly| && |search'| == |stack| - 1 + |newly|
    ensures var cur := stack[|stack| - 1];
            && Exploring(g, seed, E0, reached + newly, processed + {cur}, search',
                         marked + EmptyAmong(g, LibertyCoords(|g|, cur.0, cur.1)))
            && count' == |reached + newly|
            && Summarises(BorderColours(g, processed + {cur}), stone, neutral)
    ensures AllCoords(|g|) - (reached + newly) < AllCoords(|g|) - reached ||
            (reached + newly == reached && |search'| < |stack|)
  {
    var cur := stack[|stack| - 1];
    ExploreStep(g, seed, E0, reached, processed, stack, marked, newly, search');
    BorderColoursGrow(g, processed, cur, stone, neutral);
    if newly != {} {
      FewerUnreached(AllCoords(|g|), reached, newly);
    } else {
      assert reached + newly == reached;
    }
  }

  /** With the stack empty, traverse has reached exactly the region of its seed. */
  lemma ExploreDone(g: Grid, seed: Coord, E0: set<Coord>, reached: set<Coord>,
                    processed: set<Coord>, marked: set<Coord>)
    requires Square(g) && Exploring(g, seed, E0, reached, processed, [], marked)
    ensures reached == processed == Region(g, seed)
    ensures E0 !! Region(g, seed) && marked == E0 + Region(g, seed)
  {
    ClosedContainsComponent(g, Empty, processed, seed);
  }

  /** What traverse returns for the region around seed: its size and its single bordering
      colour; its size and None when no stone borders it; 0 and Empty when both colours do. */
  ghost function Outcome(g: Grid, seed: Coord): (int, Option<Stone>)
    requires Square(g)
  {
    var R := Region(g, seed);
    var B := BorderColours(g, R);
    if B == {} then (|R|, None)
    else if B == {Black} then (|R|, Some(Black))
    else if B == {White} then (|R|, Some(White))
    else (0, Some(Empty))
  }

  /** When the stack of traverse runs empty, the marks cover the region and what traverse
      returns is the outcome of the region. */
  lemma ExploreOutcome(g: Grid, seed: Coord, E0: set<Coord>, reached: set<Coord>,
                       processed: set<Coord>, marked: set<Coord>, stone: Option<Stone>,
                       neutral: bool, count: int)
    requires Square(g) && Exploring(g, seed, E0, reached, processed, [], marked)
    requires count == |reached| && Summarises(BorderColours(g, processed), stone, neutral)
    ensures E0 !! Region(g, seed) && marked == E0 + Region(g, seed)
    ensures (if neutral then (0, Some(Empty)) else (count, stone)) == Outcome(g, seed)
  {
    ExploreDone(g, seed, E0, reached, processed, marked);
    SummaryDecides(BorderColours(g, processed), stone, neutral);
  }

  /** get_scores credits the outcome of a region to a colour exactly when the region is that
      colour's territory, and then credits the region's whole size. */
  lemma OutcomeCredits(g: Grid, seed: Coord, col: Stone)
    requires Square(g) && col != Empty
    ensures Outcome(g, seed).1 == Some(col) <==> Owns(g, col, seed)
    ensures Owns(g, col, seed) ==> Outcome(g, seed).0 == |Region(g, seed)|
  {
    ColourSets(BorderColours(g, Region(g, seed)));
  }

  /** Growing the list of inspected cells by one cell c. */
  lemma AmongSnoc(g: Grid, cells: seq<Coord>, c: Coord)
    requires Square(g) && InBounds(|g|, c.0, c.1) && forall d :: d in cells ==> InBounds(|g|, d.0, d.1)
    ensures EmptyAmong(g, cells + [c]) == EmptyAmong(g, cells) + (if At(g, c) == Empty then {c} else {})
    ensures Colours(g, cells + [c]) == Colours(g, cells) + (if At(g, c) == Empty then {} else {At(g, c)})
  {
    assert forall d :: d in cells + [c] <==> d in cells || d == c;
  }

  /** What the neighbour loop of traverse knows after inspecting `cells`, starting from marked
      cells `m`, a count `count0` and a stack `search0`: the empty cells among them that were
      not yet marked are `newly`, each of them counted and pushed once. */
  ghost predicate Counted(g: Grid, m: set<Coord>, cells: seq<Coord>, count0: int,
                          search0: seq<Coord>, count: int, search: seq<Coord>, newly: set<Coord>)
    requires Square(g) && forall c :: c in cells ==> InBounds(|g|, c.0, c.1)
  {
    && newly == EmptyAmong(g, cells) - m
    && count == count0 + |newly| && |search| == |search0| + |newly|
    && (forall c :: c in search <==> c in search0 || c in newly)
  }

  /** Inspecting the next neighbour cells[i] marks it, if it is empty. */
  lemma MarkNext(g: Grid, m: set<Coord>, cells: seq<Coord>, i: nat)
    requires Square(g) && i < |cells| && forall d :: d in cells ==> InBounds(|g|, d.0, d.1)
    ensures m + EmptyAmong(g, cells[..i + 1]) ==
            var marked := m + EmptyAmong(g, cells[..i]);
            if At(g, cells[i]) == Empty then marked + {cells[i]} else marked
  {
    assert cells[..i + 1] == cells[..i] + [cells[i]];
    AmongSnoc(g, cells[..i], cells[i]);
  }

  /** Inspecting the next neighbour cells[i], empty and not yet marked: it is counted and
      pushed. */
  lemma CountPush(g: Grid, m: set<Coord>, cells: seq<Coord>, i: nat, count0: int,
                  search0: seq<Coord>, count: int, search: seq<Coord>, newly: set<Coord>)
    requires Square(g) && i < |cells| && forall d :: d in cells ==> InBounds(|g|, d.0, d.1)
    requires Counted(g, m, cells[..i], count0, search0, count, search, newly)
    requires At(g, cells[i]) == Empty && cells[i] !in m + EmptyAmong(g, cells[..i])
    ensures Counted(g, m, cells[..i + 1], count0, search0, count + 1, search + [cells[i]],
                    newly + {cells[i]})
  {
    var c := cells[i];
    assert cells[..i + 1] == cells[..i] + [c];
    AmongSnoc(g, cells[..i], c);
    assert c !in newly;
  }

  /** Inspecting the next neighbour cells[i], a stone or already marked: nothing is counted. */
  lemma CountSkip(g: Grid, m: set<Coord>, cells: seq<Coord>, i: nat, count0: int,
                  search0: seq<Coord>, count: int, search: seq<Coord>, newly: set<Coord>)
    requires Square(g) && i < |cells| && forall d :: d in cells ==> InBounds(|g|, d.0, d.1)
    requires Counted(g, m, cells[..i], count0, search0, count, search, newly)
    requires At(g, cells[i]) != Empty || cells[i] in m + EmptyAmong(g, cells[..i])
    ensures Counted(g, m, cells[..i + 1], count0, search0, count, search, newly)
  {
    var c := cells[i];
    assert cells[..i + 1] == cells[..i] + [c];
    AmongSnoc(g, cells[..i], c);
  }

  /** Inspecting the next neighbour cells[i]: the colour summary takes its colour. */
  lemma SummaryNext(g: Grid, cells: seq<Coord>, i: nat, seen: set<Stone>, stone: Option<Stone>,
                    neutral: bool)
    requires Square(g) && i < |cells| && forall d :: d in cells ==> InBounds(|g|, d.0, d.1)
    requires Summarises(seen + Colours(g, cells[..i]), stone, neutral)
    ensures var o := Observe(stone, neutral, At(g, cells[i]));
            Summarises(seen + Colours(g, cells[..i + 1]), o.0, o.1)
  {
    var c := cells[i];
    assert cells[..i + 1] == cells[..i] + [c];
    AmongSnoc(g, cells[..i], c);
    ObserveSummarises(seen + Colours(g, cells[..i]), stone, neutral, At(g, c));
    var s := At(g, c);
    assert seen + Colours(g, cells[..i + 1]) == seen + Colours(g, cells[..i]) + (if s == Empty then {} else {s});
  }
}
