# A verified model of a Go rule engine's board and game layers

This project models the board and game layers of a small Go engine written in Python
(`src/board.py` and `src/game.py`) and proves what they promise.

- **Board.** An N×N grid of cells, each Empty, Black or White.
  - It is written in place by `place_stone` and `remove_stone`.
  - It answers `is_within_bounds`, `get_liberty_coords`, `_is_legal_move` and
    `get_legal_actions`.
  - `_group_is_captured` is a stack-driven flood fill that decides whether a group has no liberty.
- **Game.**
  - It holds the board, the group manager, the count of consecutive passes and the game-over flag.
  - `_place_stone` places a stone tentatively and calls the group resolver. If the resolver raises
    SelfDestruct or Ko, it empties the cell again and re-raises.
  - `get_scores` computes territory scores: it flood-fills every maximal empty region with an
    explicit stack and a `traversed` grid, credits the region to the single colour bordering it,
    and subtracts each colour's own captured stones.
- **Labels and turns.** The axis labels are written by `_index_to_label` and read back by
  `_label_to_coord`. `GameUI` toggles the turn, and `GoGame` ends the game on the second pass.

Modules:

| module | file | contents |
|---|---|---|
| `Stones` | stones.dfy | cell states, coordinates, the raised exceptions as an `Error` datatype, `Result`, `Option` |
| `Geometry` | geometry.dfy | bounds tests, adjacency, `get_liberty_coords` |
| `Grids` | grids.dfy | the board as a value (`Grid`), single-cell updates, paths and 4-connected components |
| `Boards` | board.dfy | `class Board` over an `array2<Stone>`, with the flood fill of `_group_is_captured` |
| `Scoring` | territory.dfy | the declarative meaning of territory, and the invariant of the region traversal |
| `Labels` | labels.dfy | the label encoder and decoder |
| `Games` | game.dfy | the resolver interface, `class Game` with placement and scoring, `GameUI`'s turn, `GoGame`'s pass rule |

How state is modelled:

- The board keeps its cells in an `array2`. `Board.Cells()` is a ghost snapshot of those cells as a
  `Grid` value, and every contract speaks in terms of that snapshot.
- `Game.GetScores` keeps `traversed` as an `array2<bool>` and the search stack as a `seq`.
- Every loop of the source is a loop in the model. In `get_scores`, the body of each loop is a
  method of its own, proved against a ghost invariant, and lemmas in `Scoring` prove that the
  invariant gives the declarative territory:
  - a cell belongs to a colour's territory when the maximal empty region around it borders
    stones of that colour and of no other;
  - the score of each colour is the size of its territory minus that colour's own captured
    stones.

The group resolver is in `src/group.py`, which is not part of this model. Its decision on a
placement is passed in as a `Resolution` value:

- whether it returns or raises;
- which cells it empties;
- how many stones of each colour it counts as captured.

`GroupManager` carries out that decision. Ghost counters record how often `resolve_board` and
`update_state` are called.

Three behaviours of the code are easy to misread; the model follows the code as written:

- On SelfDestruct or Ko, `_place_stone` only empties cell (y, x) again (src/game.py:113 and
  src/game.py:116). It does not restore cells the resolver may have emptied.
  `Games.Game.PlaceOutcome` states exactly that.
- `_label_to_coord` applies `ord()` to a string of several letters (src/game.py:365), which raises
  TypeError rather than InvalidInputException. It is modelled as `Err(TypeError)`.
- `Game.is_over` returns the flag alone (src/game.py:79). Its docstring at src/game.py:81 speaks
  of two consecutive passes, but that text and the code after the `return` are dead, so passes
  never end a `Game`. They do end a `GoGame` (src/game.py:425-428).

## Model

| member | source | states |
|---|---|---|
| Geometry.IsWithinBounds | src/board.py:80-84 | accepts every on-board cell, and beyond those only row or column n (never a negative coordinate) |
| Geometry.WithinBoundsAdmitsEdge | src/board.py:80-84 | the off-by-one: (n, 0) passes is_within_bounds although it is off the board |
| Geometry.LibertyCoords | src/board.py:40-54 | at most four coordinates, all on the board when (y, x) is |
| Geometry.LibertyCoordsComplete | src/board.py:40-54 | from an on-board cell, the list holds exactly the on-board cells adjacent to it |
| Geometry.LibertyCoordsOrder | src/board.py:45-54 | the neighbours come in the order up, down, left, right |
| Geometry.LibertySymmetric | src/board.py:46-53 | b is listed for a exactly when a is listed for b |
| Grids.SetCell | src/board.py:69 | writing one cell changes that cell and no other |
| Grids.SetCellRestores | src/board.py:62-78 | placing into an empty cell and then removing the stone gives back the original grid |
| Boards.Board.constructor | src/board.py:8-28 | a new board of the given size has every cell empty |
| Boards.Board.PlaceStone | src/board.py:62-71 | an off-board position gives InvalidPosition and an occupied cell gives PositionOccupied, both leaving the grid unchanged; otherwise exactly the target cell takes the stone |
| Boards.Board.RemoveStone | src/board.py:74-78 | exactly cell (y, x) becomes empty |
| Boards.Board.IsLegalMove | src/board.py:139-148 | false outside is_within_bounds; IndexError on row or column n; on the board, legal exactly when the cell is empty, whatever the colour |
| Boards.Board.GetLegalActions | src/board.py:126-135 | the result holds exactly the empty cells, each once and in strictly row-major order |
| Boards.Board.GroupIsCaptured | src/board.py:161-179 | true exactly when no cell of the 4-connected group at (y, x) has an empty neighbour; the loop terminates because `visited` grows within the board |
| Boards.Board.ScanCells | src/board.py:173-177 | the neighbour loop reports an empty neighbour exactly when one is listed; otherwise it pushes every unvisited neighbour of the group's colour |
| Boards.NeighboursScanned | src/board.py:173-177 | the scan reports an empty neighbour exactly when the popped cell has a liberty, and it pushes only same-coloured adjacent cells |
| Boards.SearchStart | src/board.py:163-165 | the search starts inside the seed's group |
| Boards.SearchPop | src/board.py:168-170 | a popped cell belongs to the group; skipping an already visited cell keeps the invariant |
| Boards.SearchVisit | src/board.py:171-177 | visiting a cell without liberties and pushing its unvisited same-colour neighbours keeps the invariant |
| Boards.SearchDone | src/board.py:167-179 | an exhausted search means no cell of the whole group has a liberty |
| Labels.IsNumeric | src/game.py:359 | `isnumeric`: a numeric label is non-empty, starts with no letter, and is never alphabetic, so at most one branch of the decoder applies |
| Labels.IsAlpha | src/game.py:364 | `isalpha`: an alphabetic label is non-empty and every character lies at or above 'A' in code-point order |
| Labels.LexLess | src/game.py:364 | Python's code-point string order behind `label >= 'A'`: irreflexive, a proper prefix comes first, and a smaller first character comes first |
| Labels.DecimalValue | src/game.py:360 | a single digit is read as its own value |
| Labels.IndexToLabel | src/board.py:116-124 | a one-character label: the digit for 0..9, and 'A' onwards for 10 upwards |
| Labels.LabelToCoord | src/game.py:350-369 | a numeric label is accepted exactly when its value is below 10; every accepted value is a label value; every error is InvalidInput or TypeError |
| Labels.LettersPassGuard | src/game.py:364 | the `label >= 'A'` test never rejects a string of letters |
| Labels.LabelRoundTrip | src/game.py:359-368 | reading back the label of any index below 36 gives the index |
| Labels.LabelCanonical | src/game.py:359-368 | every accepted label decodes to a value whose own label decodes to the same value |
| Labels.NumericTooLarge | src/game.py:359-362 | a numeric label of 10 or more raises InvalidInputException |
| Labels.LetterLabels | src/game.py:364-368 | one letter decodes to the index it labels; several letters raise TypeError |
| Scoring.RegionShape | src/game.py:156-175 | the region grown from an empty cell holds that cell and only empty cells of the board |
| Scoring.RegionOfMember | src/game.py:163-175 | every cell of a region grows the same region |
| Scoring.TerritoryTakesWholeRegion | src/game.py:142-148 | territory is decided region by region: a territory cell brings its whole region |
| Scoring.TerritoriesBounded | src/game.py:149-189 | no cell is territory of both colours; Black's and White's territory together count at most the empty cells |
| Scoring.TerritoryGrowsBy | src/game.py:183-186 | adding a new region raises a colour's territory by the region's size exactly when only that colour borders it |
| Scoring.BorderColoursGrow | src/game.py:165-170 | inspecting the neighbours of one more cell adds that cell's bordering colours to the summary |
| Scoring.ColoursOfNeighbours | src/game.py:165-166 | the stones among the listed neighbours of a cell are exactly the stones bordering it |
| Scoring.Observe | src/game.py:166-170 | one inspected neighbour: an empty cell changes nothing; the first colour seen is kept; a stone always leaves a colour recorded; a colour different from the recorded one sets the neutral flag, which is never cleared |
| Scoring.ObserveSummarises | src/game.py:166-170 | `stone = stone or this_stone` and the neutral flag keep the first colour seen and flag a second one |
| Scoring.SummaryDecides | src/game.py:177-179 | at the end, the summary tells apart no border, a single colour and both colours |
| Scoring.RegionDisjoint | src/game.py:183 | an untraversed empty cell's region meets none of the cells marked by earlier traversals |
| Scoring.ClosedAddRegion | src/game.py:183-184 | the marked cells remain closed under empty neighbours after one more traversal |
| Scoring.ExploreStart | src/game.py:157-161 | the traversal invariant holds with only the seed marked and stacked |
| Scoring.ExplorePop | src/game.py:163-164 | a popped cell is an empty cell of the region already reached |
| Scoring.EmptyNeighboursInRegion | src/game.py:165-174 | the empty neighbours of a region cell lie in the region |
| Scoring.NeighboursReached | src/game.py:171-175 | after the neighbour loop, every empty neighbour of the popped cell has been reached, and the newly counted cells lie in the region and were not reached before |
| Scoring.ExploreStep | src/game.py:163-175 | one pop-and-inspect round keeps the traversal invariant |
| Scoring.PopCovers | src/game.py:164 | every reached cell is processed or still on the stack after a pop |
| Scoring.FewerUnreached | src/game.py:163 | counting a new cell shrinks the set of unreached board cells, so the loop terminates |
| Scoring.ExpandRound | src/game.py:163-175 | one round keeps the invariant, `count` equal to the reached cells and the colour summary, and it decreases the termination measure |
| Scoring.ExploreDone | src/game.py:163-175 | with the stack empty, the reached cells are exactly the region of the seed |
| Scoring.ExploreOutcome | src/game.py:177-179 | traverse returns the region's size and its one bordering colour; (0, Empty) when both colours border it; its size and None when no stone does |
| Scoring.OutcomeCredits | src/game.py:177-186 | get_scores credits a region to a colour exactly when the region is that colour's territory, and then credits its whole size |
| Scoring.AmongSnoc | src/game.py:165-175 | inspecting one more neighbour adds it to the empty cells or to the colours seen |
| Scoring.MarkNext | src/game.py:175 | inspecting a neighbour marks it when it is empty |
| Scoring.CountPush | src/game.py:171-174 | an unmarked empty neighbour is counted and pushed exactly once |
| Scoring.CountSkip | src/game.py:171-172 | a stone or an already marked neighbour is neither counted nor pushed |
| Scoring.SummaryNext | src/game.py:166-170 | the colour summary takes in each inspected neighbour |
| Games.Raised | src/game.py:110-117 | the resolver's answer passes through: Ok exactly when it returned, otherwise SelfDestruct or Ko |
| Games.GroupManager.constructor | src/game.py:50-51 | the manager is bound to the game's board and to the self-destruct setting; its capture counters start at zero, which is an assumption about the resolver |
| Games.GroupManager.ResolveBoard | src/game.py:111 | the resolver empties the cells it decides on, adds its captures to the counters and returns or raises as it decides |
| Games.GroupManager.UpdateState | src/game.py:120 | update_state is recorded once and changes nothing that Game reads |
| Games.Mark | src/game.py:175 | `traversed[ly][lx] = True` adds an empty cell to the marked set |
| Games.Game.constructor | src/game.py:41-55 | an empty board of the configured size, no captures, no passes, game not over |
| Games.Game.EndGame | src/game.py:57-58 | the game is over; the pass count is unchanged |
| Games.Game.PassTurn | src/game.py:72-76 | the pass count goes up by one and the game-over flag is unchanged |
| Games.Game.IsOver | src/game.py:78-79 | exactly the game-over flag |
| Games.Game.PlaceStone | src/game.py:101-120 | an Empty stone changes nothing. A placement error changes nothing and the resolver is never called. A raised SelfDestruct or Ko empties (y, x) again, keeps the pass count, skips update_state and is passed on. Success resets the pass count and calls update_state once |
| Games.Game.PlaceBlack | src/game.py:60-64 | _place_stone with Black |
| Games.Game.PlaceWhite | src/game.py:66-70 | _place_stone with White |
| Games.Game.GetScores | src/game.py:142-190 | each colour's score is the size of its territory minus that colour's own captured stones |
| Games.Game.ScoreRow | src/game.py:182-186 | after row y, every empty cell up to row y is marked, and the tallies are the territories among the marked cells |
| Games.Game.ScoreFrom | src/game.py:183-186 | an unmarked empty cell starts a traversal whose result goes to the colour it reports; the tallies stay the territories among the marked cells |
| Games.Game.Traverse | src/game.py:156-179 | marks exactly the region around (y, x), which no earlier traversal touched, and returns its outcome |
| Games.Game.Explore | src/game.py:157-174 | the while-loop ends with the whole region reached, `count` equal to its size, and the colours bordering it summarised |
| Games.Game.Expand | src/game.py:164-175 | one pop keeps the traversal invariant and decreases the termination measure |
| Games.Game.ScanRegion | src/game.py:165-175 | the neighbour loop marks the empty neighbours, counts and pushes exactly those that were unmarked, and summarises the bordering colours |
| Games.Game.Inspect | src/game.py:166-175 | one neighbour: its colour is summarised, it is counted and pushed when it is empty and unmarked, and it is marked |
| Games.RowMajorNext | src/game.py:181-182 | the row-major scan leaves every empty cell before the next position marked |
| Games.TallyDone | src/game.py:181-186 | once every empty cell is marked, the tallies are the two territories |
| Games.Credit | src/game.py:183-186 | one more region keeps the marked cells closed and raises each tally by what that region credits its colour |
| Games.Toggled | src/game.py:302-306 | Black gives White, White gives Black, never Empty |
| Games.ToggleTwice | src/game.py:302-306 | two switches return the turn to the same player, and one switch changes it |
| Games.GameUI.constructor | src/game.py:201 | no turn is set at first |
| Games.GameUI.SwitchTurns | src/game.py:302-306 | the new turn is the toggled old one |
| Games.GoGame.constructor | src/game.py:380-383 | not over, no passes |
| Games.GoGame.PassTurn | src/game.py:425-428 | the pass count goes up by one; the game is over exactly when it was already over or this is at least the second pass |
| Games.GoGame.EndGame | src/game.py:430-432 | the game is over; the pass count is unchanged |
| Games.GoGame.IsOver | src/game.py:434-435 | exactly the game-over flag |

## Left out

- The group resolver (`resolve_board`, `update_state`, `_num_captured_stones`): src/group.py is not part of this model. Its decision on a placement is an input, and its capture, suicide and ko logic is not modelled.
- `Stone` and `make_2d_array`: src/utils.py is not part of this model. The stone is a three-valued datatype and the `traversed` grid is a fresh `array2<bool>`.
- The NumPy subclassing in `Board.__new__` and `__array_finalize__`, and the render strings in its configuration: the board is built from its size alone.
- Rendering and printing: `_render`, `_value_to_render`, `render_board`, and the messages printed by `GameUI` and `GoGame`.
- The interactive loops and input parsing: `GameUI.play`, `_prompt_move`, `_is_valid_input`, `_parse_coordinates`, `_parse_move`, `_display_result`, `GameUI._place_stone` (including its own reset of the pass count) and `_get_ai_move`. Also `GoGame.play`, `handle_command` and `get_scores`, which refer to names that do not exist. The GameUI members serve the console loop and the agent; GoGame's three cannot run as written.
- Agents, `random.choice` and the configuration loading of the entry point: they are randomness and I/O.
- `Game.is_within_bounds` and the `num_black_captured` / `num_white_captured` properties: they only forward to `Board.is_within_bounds` and to the manager's counters, which the model reads directly.
- Dead code: the stray statements after `get_liberty_coords`, the capture test after the `return` in `_is_legal_move`, and the code after the `return` in `Game.is_over`.
- Geometry.LibertyCoords: its own contract gives only the length bound and on-board results. Which cells are listed, and in what order, is stated by `Geometry.LibertyCoordsComplete` and `Geometry.LibertyCoordsOrder`.
- Labels.LabelToCoord: `isnumeric`, `isalpha` and `int()` are modelled on ASCII digits and letters only, not on every Unicode digit or letter.
- Labels.IndexToLabel: requires the resulting code point to lie below the surrogate range, because a Dafny `char` cannot hold a surrogate. `chr()` has no such limit.
- Games.Tracks: it relates `traversed` to the marked set on empty cells only. `get_scores` also sets the flag on bordering stones, and it reads the flag on a stone only where an emptiness test also decides the outcome, so the value there never matters.
- Games.Game.GetScores: the `scores` dictionary is kept as two integer tallies while the loops run, and it is built once at the end.
- Games.GroupManager.constructor: the capture counters start at zero. This is an assumption about the resolver, whose constructor is in src/group.py and is not part of this model.
- Games.GroupManager.UpdateState: only the call is recorded. What update_state does to the manager's own bookkeeping is not modelled.
