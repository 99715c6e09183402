/** The game layer of src/game.py: the session state of Game with its guarded placement and
    rollback, territory scoring, the turn toggle of GameUI and the pass rule of GoGame. */
module Games {
  import opened Stones
  import opened Geometry
  import opened Grids
  import opened Boards
  import opened Scoring

  /** How the group resolver answers a placement: it returns, or raises SelfDestructException
      or KoException. */
  datatype Verdict = Resolved | SelfDestructRaised | KoRaised

  /** The resolver's decision on one placement: its verdict, the cells it empties, and how
      many stones of each colour it counts as captured. */
  datatype Resolution = Resolution(verdict: Verdict, cleared: set<Coord>, blackCaptured: nat,
                                   whiteCaptured: nat)

  /** The result a verdict gives to the caller of resolve_board. */
  function Raised(v: Verdict): (r: Result<()>)
    ensures r.Ok? <==> v == Resolved
    ensures r.Err? ==> r.error == SelfDestruct || r.error == Ko
  {
    match v
    case Resolved => Ok(())
    case SelfDestructRaised => Err(SelfDestruct)
    case KoRaised => Err(Ko)
  }

  /** The group manager Game calls into. Its capture and ko logic is not part of this model:
      the decision it reaches on a placement is passed in, and it carries out that decision on
      the board and on its capture counters. The ghost counters record how often Game calls it. */
  class GroupManager {
    const board: Board
    const enableSelfDestruct: bool
    /** _num_captured_stones[Stone.BLACK] and [Stone.WHITE]. */
    var numBlackCaptured: nat
    var numWhiteCaptured: nat
    ghost var resolveCalls: nat
    ghost var updateCalls: nat

    constructor (board: Board, enableSelfDestruct: bool)
      ensures this.board == board && this.enableSelfDestruct == enableSelfDestruct
      ensures numBlackCaptured == 0 && numWhiteCaptured == 0
      ensures resolveCalls == 0 && updateCalls == 0
    {
      this.board := board;
      this.enableSelfDestruct := enableSelfDestruct;
      numBlackCaptured, numWhiteCaptured := 0, 0;
      resolveCalls, updateCalls := 0, 0;
    }

    /** resolve_board(y, x): empties the cells the decision clears, adds its captures to the
        counters, and returns or raises as the decision says. */
    method ResolveBoard(y: int, x: int, decision: Resolution) returns (r: Result<()>)
      requires board.Valid()
      requires forall c :: c in decision.cleared ==> InBounds(board.size, c.0, c.1)
      modifies this, board.grid
      ensures board.Cells() == ClearCells(old(board.Cells()), decision.cleared)
      ensures numBlackCaptured == old(numBlackCaptured) + decision.blackCaptured
      ensures numWhiteCaptured == old(numWhiteCaptured) + decision.whiteCaptured
      ensures resolveCalls == old(resolveCalls) + 1 && updateCalls == old(updateCalls)
      ensures r == Raised(decision.verdict)
    {
      ghost var before := board.Cells();
      forall i, j | 0 <= i < board.size && 0 <= j < board.size && (i, j) in decision.cleared {
        board.grid[i, j] := Empty;
      }
      GridsEqual(board.Cells(), ClearCells(before, decision.cleared));
      numBlackCaptured := numBlackCaptured + decision.blackCaptured;
      numWhiteCaptured := numWhiteCaptured + decision.whiteCaptured;
      resolveCalls := resolveCalls + 1;
      r := Raised(decision.verdict);
    }

    /** update_state: recorded as one more call; nothing Game reads changes. */
    method UpdateState()
      modifies this
      ensures updateCalls == old(updateCalls) + 1 && resolveCalls == old(resolveCalls)
      ensures numBlackCaptured == old(numBlackCaptured) && numWhiteCaptured == old(numWhiteCaptured)
    {
      updateCalls := updateCalls + 1;
    }
  }

  /** `traversed` marks exactly the empty cells of `m` among the empty cells of `g`; what it
      holds for stones plays no part in scoring. */
  ghost predicate Tracks(traversed: array2<bool>, g: Grid, m: set<Coord>)
    reads traversed
  {
    && Square(g) && traversed.Length0 == |g| && traversed.Length1 == |g| && m <= Empties(g)
    && forall c :: c in Empties(g) ==> (traversed[c.0, c.1] <==> c in m)
  }

  /** traversed[y][x] = True on one cell: an empty cell joins the marked set. */
  method Mark(traversed: array2<bool>, ghost g: Grid, ghost m: set<Coord>, c: Coord)
    requires Tracks(traversed, g, m) && InBounds(|g|, c.0, c.1)
    modifies traversed
    ensures Tracks(traversed, g, if At(g, c) == Empty then m + {c} else m)
  {
    traversed[c.0, c.1] := true;
  }

  /** Game: a board, its group manager, the count of consecutive passes and the game-over flag. */
  class Game {
    const board: Board
    const boardSize: nat
    const gm: GroupManager
    var countPass: nat
    var isGameOver: bool

    ghost predicate Valid() {
      board.Valid() && gm.board == board && boardSize == board.size
    }

    /** __init__: an empty board of the configured size and a fresh group manager. */
    constructor (boardSize: nat, enableSelfDestruct: bool)
      ensures Valid() && this.boardSize == boardSize && fresh(board) && fresh(board.grid) && fresh(gm)
      ensures Empties(board.Cells()) == AllCoords(boardSize)
      ensures countPass == 0 && !isGameOver
      ensures gm.numBlackCaptured == 0 && gm.numWhiteCaptured == 0
      ensures gm.resolveCalls == 0 && gm.updateCalls == 0
    {
      var b := new Board(boardSize);
      board := b;
      this.boardSize := boardSize;
      gm := new GroupManager(b, enableSelfDestruct);
      countPass := 0;
      isGameOver := false;
    }

    /** _end_game: the game is over; nothing else changes. */
    method EndGame()
      modifies this
      ensures isGameOver && countPass == old(countPass)
    {
      isGameOver := true;
    }

    /** pass_turn: one more consecutive pass. Passing never ends a Game. */
    method PassTurn()
      modifies this
      ensures countPass == old(countPass) + 1 && isGameOver == old(isGameOver)
    {
      countPass := countPass + 1;
    }

    /** is_over: the flag as set by _end_game; the pass count plays no part. */
    function IsOver(): (over: bool)
      reads this
      ensures over <==> isGameOver
    {
      isGameOver
    }

    /** What _place_stone does with `stone` at (y, x) when the resolver decides `decision`:
        an empty stone, a position off the board or an occupied cell change nothing and never
        reach the resolver; otherwise the stone is placed and the resolver runs once, and then
        either the move stands (the pass count is reset and update_state runs once) or the
        resolver raised, cell (y, x) is emptied again and the exception is passed on. */
    twostate predicate PlaceOutcome(stone: Stone, y: int, x: int, decision: Resolution,
                                    new r: Result<()>)
      requires Valid()
      reads this, board.grid, gm
    {
      var before := old(board.Cells());
      var after := board.Cells();
      var untouched :=
        && after == before && countPass == old(countPass)
        && gm.resolveCalls == old(gm.resolveCalls) && gm.updateCalls == old(gm.updateCalls)
        && gm.numBlackCaptured == old(gm.numBlackCaptured)
        && gm.numWhiteCaptured == old(gm.numWhiteCaptured);
      && isGameOver == old(isGameOver)
      && (stone == Empty ==> r == Ok(()) && untouched)
      && (stone != Empty && !InBounds(boardSize, y, x) ==> r == Err(InvalidPosition) && untouched)
      && (stone != Empty && InBounds(boardSize, y, x) && At(before, (y, x)) != Empty ==>
            r == Err(PositionOccupied) && untouched)
      && (stone != Empty && InBounds(boardSize, y, x) && At(before, (y, x)) == Empty ==>
            var resolved := ClearCells(SetCell(before, (y, x), stone), decision.cleared);
            && gm.resolveCalls == old(gm.resolveCalls) + 1
            && gm.numBlackCaptured == old(gm.numBlackCaptured) + decision.blackCaptured
            && gm.numWhiteCaptured == old(gm.numWhiteCaptured) + decision.whiteCaptured
            && r == Raised(decision.verdict)
            && (decision.verdict == Resolved ==>
                  after == resolved && countPass == 0 && gm.updateCalls == old(gm.updateCalls) + 1)
            && (decision.verdict != Resolved ==>
                  && after == SetCell(resolved, (y, x), Empty)
                  && countPass == old(countPass) && gm.updateCalls == old(gm.updateCalls)))
    }

    /** _place_stone. */
    method PlaceStone(stone: Stone, y: int, x: int, decision: Resolution) returns (r: Result<()>)
      requires Valid() && forall c :: c in decision.cleared ==> InBounds(boardSize, c.0, c.1)
      modifies this, board.grid, gm
      ensures Valid()
      ensures PlaceOutcome(stone, y, x, decision, r)
    {
      if stone == Empty {
        return Ok(());
      }
      r := board.PlaceStone(stone, y, x);
      if r.Err? {
        return;
      }
      r := gm.ResolveBoard(y, x, decision);
      if r.Err? {
        board.RemoveStone(y, x);
        return;
      }
      countPass := 0;
      gm.UpdateState();
    }

    /** place_black. */
    method PlaceBlack(y: int, x: int, decision: Resolution) returns (r: Result<()>)
      requires Valid() && forall c :: c in decision.cleared ==> InBounds(boardSize, c.0, c.1)
      modifies this, board.grid, gm
      ensures Valid()
      ensures PlaceOutcome(Black, y, x, decision, r)
    {
      r := PlaceStone(Black, y, x, decision);
    }

    /** place_white. */
    method PlaceWhite(y: int, x: int, decision: Resolution) returns (r: Result<()>)
      requires Valid() && forall c :: c in decision.cleared ==> InBounds(boardSize, c.0, c.1)
      modifies this, board.grid, gm
      ensures Valid()
      ensures PlaceOutcome(White, y, x, decision, r)
    {
      r := PlaceStone(White, y, x, decision);
    }

    /** get_scores: each colour's territory minus that colour's own captured stones. */
    method GetScores() returns (scores: map<Stone, int>)
      requires Valid()
      ensures scores == map[Black := |Territory(board.Cells(), Black)| - gm.numBlackCaptured,
                            White := |Territory(board.Cells(), White)| - gm.numWhiteCaptured]
    {
      ghost var g := board.Cells();
      var black, white := 0, 0;
      var traversed := new bool[boardSize, boardSize]((i, j) => false);
      ghost var m: set<Coord> := {};
      for y := 0 to boardSize
        invariant Tracks(traversed, g, m) && Tallied(g, m, black, white)
        invariant forall c :: c in Empties(g) && c.0 < y ==> c in m
      {
        black, white, m := ScoreRow(traversed, y, m, black, white);
      }
      TallyDone(g, m, black, white);
      scores := map[Black := black - gm.numBlackCaptured, White := white - gm.numWhiteCaptured];
    }

    /** The inner loop of get_scores, over row y. */
    method ScoreRow(traversed: array2<bool>, y: int, ghost m: set<Coord>, black: int, white: int)
      returns (black': int, white': int, ghost m': set<Coord>)
      requires Valid() && 0 <= y < boardSize
      requires Tracks(traversed, board.Cells(), m) && Tallied(board.Cells(), m, black, white)
      requires forall c :: c in Empties(board.Cells()) && c.0 < y ==> c in m
      modifies traversed
      ensures Tracks(traversed, board.Cells(), m') && Tallied(board.Cells(), m', black', white')
      ensures forall c :: c in Empties(board.Cells()) && c.0 <= y ==> c in m'
    {
      ghost var g := board.Cells();
      black', white', m' := black, white, m;
      for x := 0 to boardSize
        invariant Tracks(traversed, g, m') && Tallied(g, m', black', white')
        invariant forall c :: c in Empties(g) && RowMajorBefore(c, (y, x)) ==> c in m'
      {
        ghost var m0 := m';
        black', white', m' := ScoreFrom(traversed, y, x, m', black', white');
        RowMajorNext(g, m0, m', y, x);
      }
    }

    /** One step of the double loop of get_scores: an empty cell no earlier traversal marked
        starts a traversal, whose score goes to the colour it reports. */
    method ScoreFrom(traversed: array2<bool>, y: int, x: int, ghost m: set<Coord>, black: int, white: int)
      returns (black': int, white': int, ghost m': set<Coord>)
      requires Valid() && InBounds(boardSize, y, x)
      requires Tracks(traversed, board.Cells(), m) && Tallied(board.Cells(), m, black, white)
      modifies traversed
      ensures Tracks(traversed, board.Cells(), m') && Tallied(board.Cells(), m', black', white')
      ensures m <= m' && ((y, x) in Empties(board.Cells()) ==> (y, x) in m')
    {
      ghost var g := board.Cells();
      black', white', m' := black, white, m;
      if !traversed[y, x] && board.grid[y, x] == Empty {
        var score, stone := Traverse(traversed, y, x, m);
        Credit(g, m, (y, x));
        RegionShape(g, (y, x));
        if stone == Some(Black) {
          black' := black' + score;
        } else if stone == Some(White) {
          white' := white' + score;
        }
        m' := m + Region(g, (y, x));
      }
    }

    /** traverse(y, x), the closure inside get_scores: marks the whole empty region around
        (y, x) with a stack-driven search, counting its cells and the colours bordering it. */
    method Traverse(traversed: array2<bool>, y: int, x: int, ghost m: set<Coord>)
      returns (score: int, owner: Option<Stone>)
      requires Valid() && Tracks(traversed, board.Cells(), m) && Closed(board.Cells(), Empty, m)
      requires InBounds(boardSize, y, x) && board.grid[y, x] == Empty && !traversed[y, x]
      modifies traversed
      ensures m !! Region(board.Cells(), (y, x))
      ensures Tracks(traversed, board.Cells(), m + Region(board.Cells(), (y, x)))
      ensures (score, owner) == Outcome(board.Cells(), (y, x))
    {
      ghost var g := board.Cells();
      var stone, neutral, count;
      ghost var reached, processed, marked;
      stone, neutral, count, reached, processed, marked := Explore(traversed, g, (y, x), m);
      ExploreOutcome(g, (y, x), m, reached, processed, marked, stone, neutral, count);
      if neutral {
        return 0, Some(Empty);
      }
      return count, stone;
    }

    /** The search of traverse: mark the seed, put it alone on the stack, and run the
        while-loop until the stack is empty. */
    method Explore(traversed: array2<bool>, ghost g: Grid, seed: Coord, ghost m: set<Coord>)
      returns (stone: Option<Stone>, neutral: bool, count: int,
               ghost reached: set<Coord>, ghost processed: set<Coord>, ghost marked: set<Coord>)
      requires Valid() && g == board.Cells() && Tracks(traversed, g, m) && Closed(g, Empty, m)
      requires InBounds(boardSize, seed.0, seed.1) && At(g, seed) == Empty && seed !in m
      modifies traversed
      ensures Exploring(g, seed, m, reached, processed, [], marked) && Tracks(traversed, g, marked)
      ensures count == |reached| && Summarises(BorderColours(g, processed), stone, neutral)
    {
      ExploreStart(g, seed, m);
      Mark(traversed, g, m, seed);
      var search := [seed];
      stone, neutral, count := None, false, 1;
      reached, processed, marked := {seed}, {}, m + {seed};
      assert BorderColours(g, {}) == {};
      while search != []
        invariant Exploring(g, seed, m, reached, processed, search, marked)
        invariant Tracks(traversed, g, marked)
        invariant count == |reached|
        invariant Summarises(BorderColours(g, processed), stone, neutral)
        decreases AllCoords(boardSize) - reached, |search|
      {
        search, stone, neutral, count, reached, processed, marked :=
          Expand(traversed, g, seed, m, search, stone, neutral, count, reached, processed, marked);
      }
    }

    /** One round of the while-loop of traverse: pop a cell and inspect its neighbours. */
    method Expand(traversed: array2<bool>, ghost g: Grid, ghost seed: Coord, ghost m: set<Coord>,
                  search: seq<Coord>, stone: Option<Stone>, neutral: bool, count: int,
                  ghost reached: set<Coord>, ghost processed: set<Coord>, ghost marked: set<Coord>)
      returns (search': seq<Coord>, stone': Option<Stone>, neutral': bool, count': int,
               ghost reached': set<Coord>, ghost processed': set<Coord>, ghost marked': set<Coord>)
      requires Valid() && g == board.Cells() && search != []
      requires Exploring(g, seed, m, reached, processed, search, marked) && Tracks(traversed, g, marked)
      requires count == |reached| && Summarises(BorderColours(g, processed), stone, neutral)
      modifies traversed
      ensures Exploring(g, seed, m, reached', processed', search', marked') && Tracks(traversed, g, marked')
      ensures count' == |reached'| && Summarises(BorderColours(g, processed'), stone', neutral')
      ensures AllCoords(boardSize) - reached' < AllCoords(boardSize) - reached ||
              (reached' == reached && |search'| < |search|)
    {
      ExplorePop(g, seed, m, reached, processed, search, marked);
      var cur := search[|search| - 1];
      var nbrs := LibertyCoords(boardSize, cur.0, cur.1);
      ghost var newly;
      stone', neutral', count', search', newly := ScanRegion(traversed, g, marked, nbrs, stone, neutral,
                                                           count, search[..|search| - 1], BorderColours(g, processed));
      ExpandRound(g, seed, m, reached, processed, search, marked, count, newly, search', count', stone', neutral');
      reached' := reached + newly;
      processed' := processed + {cur};
      marked' := marked + EmptyAmong(g, nbrs);
    }

    /** The body of the neighbour loop of traverse, on nbrs[i]. */
    method Inspect(traversed: array2<bool>, ghost g: Grid, ghost m: set<Coord>, nbrs: seq<Coord>, i: nat,
                   ghost seen: set<Stone>, count0: int, search0: seq<Coord>, stone: Option<Stone>,
                   neutral: bool, count: int, search: seq<Coord>, ghost newly: set<Coord>)
      returns (stone': Option<Stone>, neutral': bool, count': int, search': seq<Coord>,
               ghost newly': set<Coord>)
      requires Valid() && g == board.Cells() && i < |nbrs|
      requires forall c :: c in nbrs ==> InBounds(boardSize, c.0, c.1)
      requires Tracks(traversed, g, m + EmptyAmong(g, nbrs[..i]))
      requires Counted(g, m, nbrs[..i], count0, search0, count, search, newly)
      requires Summarises(seen + Colours(g, nbrs[..i]), stone, neutral)
      modifies traversed
      ensures Tracks(traversed, g, m + EmptyAmong(g, nbrs[..i + 1]))
      ensures Counted(g, m, nbrs[..i + 1], count0, search0, count', search', newly')
      ensures Summarises(seen + Colours(g, nbrs[..i + 1]), stone', neutral')
    {
      var nb := nbrs[i];
      MarkNext(g, m, nbrs, i);
      SummaryNext(g, nbrs, i, seen, stone, neutral);
      var thisStone := board.grid[nb.0, nb.1];
      stone', neutral', count', search', newly' := stone, neutral, count, search, newly;
      // Written out statement by statement as traverse has it; Scoring.Observe is the same
      // step as a function, and SummaryNext states the summary in its terms.
      if thisStone != Empty {
        stone' := if stone'.None? then Some(thisStone) else stone';
        if stone'.value != thisStone {
          neutral' := true;
        }
      }
      if !traversed[nb.0, nb.1] && thisStone == Empty {
        CountPush(g, m, nbrs, i, count0, search0, count, search, newly);
        count' := count' + 1;
        search' := search' + [nb];
        newly' := newly' + {nb};
      } else {
        CountSkip(g, m, nbrs, i, count0, search0, count, search, newly);
      }
      Mark(traversed, g, m + EmptyAmong(g, nbrs[..i]), nb);
    }

    /** The for-loop of traverse over the neighbours `nbrs` of the popped cell: each one is
        marked; a stone updates the colour summary; an unmarked empty one is counted and
        pushed. */
    method ScanRegion(traversed: array2<bool>, ghost g: Grid, ghost m: set<Coord>, nbrs: seq<Coord>,
                      stone: Option<Stone>, neutral: bool, count: int, search: seq<Coord>,
                      ghost seen: set<Stone>)
      returns (stone': Option<Stone>, neutral': bool, count': int, search': seq<Coord>,
               ghost newly: set<Coord>)
      requires Valid() && g == board.Cells() && Tracks(traversed, g, m)
      requires forall c :: c in nbrs ==> InBounds(boardSize, c.0, c.1)
      requires Summarises(seen, stone, neutral)
      modifies traversed
      ensures Tracks(traversed, g, m + EmptyAmong(g, nbrs))
      ensures newly == EmptyAmong(g, nbrs) - m
      ensures count' == count + |newly| && |search'| == |search| + |newly|
      ensures forall c :: c in search' <==> c in search || c in newly
      ensures Summarises(seen + Colours(g, nbrs), stone', neutral')
    {
      stone', neutral', count', search', newly := stone, neutral, count, search, {};
      assert nbrs[..0] == [] && seen + Colours(g, []) == seen;
      for i := 0 to |nbrs|
        invariant Tracks(traversed, g, m + EmptyAmong(g, nbrs[..i]))
        invariant Counted(g, m, nbrs[..i], count, search, count', search', newly)
        invariant Summarises(seen + Colours(g, nbrs[..i]), stone', neutral')
      {
        stone', neutral', count', search', newly :=
          Inspect(traversed, g, m, nbrs, i, seen, count, search, stone', neutral', count', search', newly);
      }
      assert nbrs[..|nbrs|] == nbrs;
    }
  }

  /** The tallies get_scores holds for Black and White once the empty cells `m` have been
      traversed: each colour has the size of its territory among them. */
  ghost predicate Tallied(g: Grid, m: set<Coord>, black: int, white: int)
    requires Square(g)
  {
    && Closed(g, Empty, m)
    && black == |TerritoryIn(g, m, Black)| && white == |TerritoryIn(g, m, White)|
  }

  /** Marking through cell (y, x) extends the marks over every empty cell read so far. */
  lemma RowMajorNext(g: Grid, m: set<Coord>, m': set<Coord>, y: int, x: int)
    requires Square(g)
    requires forall c :: c in Empties(g) && RowMajorBefore(c, (y, x)) ==> c in m
    requires m <= m' && ((y, x) in Empties(g) ==> (y, x) in m')
    ensures forall c :: c in Empties(g) && RowMajorBefore(c, (y, x + 1)) ==> c in m'
  {
    forall c | c in Empties(g) && RowMajorBefore(c, (y, x + 1)) ensures c in m' {
      assert c == (y, x) || RowMajorBefore(c, (y, x));
    }
  }

  /** Once every empty cell is marked, the tallies are the sizes of the two territories. */
  lemma TallyDone(g: Grid, m: set<Coord>, black: int, white: int)
    requires Square(g) && Tallied(g, m, black, white) && m <= Empties(g)
    requires forall c :: c in Empties(g) && c.0 < |g| ==> c in m
    ensures black == |Territory(g, Black)| && white == |Territory(g, White)|
  {
    assert m == Empties(g);
  }

  /** Scoring one more region: the marked cells stay closed under empty neighbours, and each
      colour's territory among them grows by what get_scores credits to that colour. */
  lemma Credit(g: Grid, before: set<Coord>, seed: Coord)
    requires Square(g) && before !! Region(g, seed) && Closed(g, Empty, before)
    ensures Closed(g, Empty, before + Region(g, seed))
    ensures |TerritoryIn(g, before + Region(g, seed), Black)| ==
            |TerritoryIn(g, before, Black)| + (if Outcome(g, seed).1 == Some(Black) then Outcome(g, seed).0 else 0)
    ensures |TerritoryIn(g, before + Region(g, seed), White)| ==
            |TerritoryIn(g, before, White)| + (if Outcome(g, seed).1 == Some(White) then Outcome(g, seed).0 else 0)
  {
    ClosedAddRegion(g, before, seed);
    TerritoryGrowsBy(g, before, seed, Black);
    TerritoryGrowsBy(g, before, seed, White);
    OutcomeCredits(g, seed, Black);
    OutcomeCredits(g, seed, White);
  }

  /** Toggled turn of _switch_turns: White becomes Black, anything else (Black, or no turn
      yet) becomes White. */
  function Toggled(turn: Option<Stone>): (next: Stone)
    ensures next != Empty
    ensures turn == Some(Black) ==> next == White
    ensures turn == Some(White) ==> next == Black
  {
    if turn == Some(White) then Black else White
  }

  /** Two switches from a player's turn give the turn back to that player. */
  lemma ToggleTwice(c: Stone)
    requires c != Empty
    ensures Toggled(Some(Toggled(Some(c)))) == c && Toggled(Some(c)) != c
  {
  }

  /** The turn state of GameUI. */
  class GameUI {
    var turn: Option<Stone>

    constructor ()
      ensures turn == None
    {
      turn := None;
    }

    /** _switch_turns. */
    method SwitchTurns()
      modifies this
      ensures turn == Some(Toggled(old(turn)))
    {
      turn := Some(Toggled(turn));
    }
  }

  /** The pass rule of GoGame. */
  class GoGame {
    var isGameOver: bool
    var countPass: nat

    constructor ()
      ensures !isGameOver && countPass == 0
    {
      isGameOver := false;
      countPass := 0;
    }

    /** pass_turn: one more pass; the second consecutive pass ends the game. */
    method PassTurn()
      modifies this
      ensures countPass == old(countPass) + 1
      ensures isGameOver <==> old(isGameOver) || countPass >= 2
    {
      countPass := countPass + 1;
      if countPass >= 2 {
        EndGame();
      }
    }

    /** _end_game. */
    method EndGame()
      modifies this
      ensures isGameOver && countPass == old(countPass)
    {
      isGameOver := true;
    }

    /** is_over: the flag as set by _end_game. */
    function IsOver(): (over: bool)
      reads this
      ensures over <==> isGameOver
    {
      isGameOver
    }
  }
}
