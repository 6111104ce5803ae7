# Hua Rong Dao search, modelled in Dafny

A model of the search engine in `hrd.py`, a solver for the 4-column,
5-row Hua Rong Dao sliding-block puzzle. Each part of the solver has its
own module:

- `Pieces`: a piece and its unit moves (`Piece.move`).
- `Boards`: the board, its 5x4 symbol grid, and the grid turned into text.
  It covers `__construct_grid`, the 20-character key `grid_str`,
  `convert_line_to_grid` and `find_spaces`.
- `Goals`: the goal test `is_goal` and the Manhattan `heuristic`.
- `Neighbours`: finding the piece that covers a cell (`find_goal_coords`,
  `id_neighbour`) and listing the candidate moves into an empty cell
  (`find_neighbours`).
- `Legality`: the move-validity check `is_valid_move`, and the move rule
  stated over pieces (`Legal`) that it is compared against.
- `Successors`: `generate_successors`, with the facts about states one move
  apart. These are consistency and admissibility of the heuristic.
- `SearchTree`: the invariant shared by both searches. It covers the
  explored-key set, the parent links and closure under legal moves.
- `Search`: `dfs` and `astar`. In A*, a state of least f is popped each
  time.
- `Solution`: `get_solution`, `convert_to_str`, and the text that
  `write_solution` produces.

A board is a list of pieces together with the grid built from them
(`NewBoard` is `Board.__init__`). A state carries its board, f, depth and
parent. The parent is a position in the search tree, not a reference.
The search tree is the sequence of states the search has expanded, in
order. Both searches return it next to the goal state they found, and
parent positions index into it. Python's negative list indices wrap around,
and `Boards.At` / `Boards.Put` model that wrap explicitly. A positive index
out of range raises in Python, so it appears as a precondition here.

Termination of both searches uses the measure (number of 20-character keys
over the board alphabet not yet explored, frontier length). Each pass
either explores a new key or shortens the frontier.

## Model

| member | source | states |
|---|---|---|
| Pieces.Move | hrd.py:43-55 | A move keeps the piece's kind. An unrecognised direction leaves the piece unchanged. |
| Pieces.MoveIsUnitTranslation | hrd.py:43-55 | 'l'/'r' change x by -1/+1 and 'u'/'d' change y by -1/+1, a translation of length one. Any other direction moves nothing. |
| Pieces.MoveUndone | hrd.py:43-55 | Moving back in the opposite direction restores the piece. |
| Pieces.MoveShiftsFootprint | hrd.py:43-55 | The moved piece covers exactly the old footprint shifted by the direction. |
| Boards.ConstructGrid | hrd.py:78-106 | The grid built from the pieces is 5 rows of 4 symbols, all from the board alphabet. |
| Boards.NewBoard | hrd.py:62-76 | A new board keeps its piece list and carries a 5x4 grid over the alphabet. |
| Boards.ConstructGridShows | hrd.py:83-106 | On in-bounds pieces every cell shows the symbol of the last piece covering it ('1', '2', '<' '>', '^' 'v' by footprint position), and '.' when no piece covers it. |
| Boards.NewBoardShows | hrd.py:62-106 | A board built from in-bounds pieces shows its pieces. |
| Boards.WellFormedIsBuilt | hrd.py:62-106 | A well-formed board is exactly the board `__init__` builds from its pieces. |
| Boards.GridCell | hrd.py:83-106 | On a well-formed board a cell is '.' iff no piece covers it, and otherwise it holds the covering piece's symbol. |
| Boards.WellFormedHasSpace | hrd.py:83-106 | A well-formed board has an empty cell. |
| Boards.Paint | hrd.py:89-105 | Drawing one in-bounds piece writes its symbol ('1' for the goal block, '2' for a single, '<' '>' or '^' 'v' by position in a domino) on exactly the cells it covers and leaves every other cell as it was. |
| Boards.Put | hrd.py:89-105 | Writing a grid cell (with Python's negative-index wrap) changes that cell only. |
| Boards.GridStr | hrd.py:108-111 | The key has 20 characters, and character 4i+j is grid[i][j]. |
| Boards.Flatten | hrd.py:108-111 | Joining rows of width 4 gives a string whose character 4i+j is row i, column j. |
| Boards.ConvertLineToGrid | hrd.py:113-118 | The split always gives 5 rows. On a 20-character line, row i is characters 4i to 4i+3. |
| Boards.SplitFlatten | hrd.py:108-118 | Splitting the key of a grid gives back the grid. |
| Boards.FlattenSplit | hrd.py:108-118 | Joining the rows of a split 20-character line gives back the line. |
| Boards.ScanPass | hrd.py:143-148 | One row-major pass appends exactly the '.' cells, in order, to what was found before. |
| Boards.FindSpaces | hrd.py:137-151 | At least two entries, all of them '.' cells. Every '.' cell is among them and none precedes the first. With two distinct spaces the list is strictly row-major. When both entries are the same cell, the list has exactly those two entries and that cell is the only space. |
| Boards.SpacesOrder | hrd.py:137-151 | The same facts, derived for any list built from whole scan passes. |
| Boards.Occupant | hrd.py:83-106 | None exactly when no piece covers the cell. Otherwise it is the last piece covering it. |
| Goals.IsGoal | hrd.py:223-228 | The goal test holds iff all four cells of the exit square (rows 3-4, columns 1-2) show '1'. |
| Goals.GoalAtExit | hrd.py:223-228 | On a well-formed board the goal test holds iff the goal block's top-left corner is at row 3, column 1. |
| Goals.GoalCells | hrd.py:223-228 | On a well-formed board a cell holds '1' iff the goal block covers it. |
| Goals.GoalDistance | hrd.py:230-237 | The distance is \|3 - y\| + \|1 - x\| of the first goal piece in the list. |
| Goals.Heuristic | hrd.py:230-237 | The heuristic of a board is that distance for its first goal piece. |
| Goals.HeuristicOfGoal | hrd.py:230-237 | On a well-formed board, the heuristic is the distance of the goal block. |
| Goals.GoalTestMatchesHeuristic | hrd.py:223-237 | On a well-formed board the goal test holds iff the heuristic is 0. |
| Neighbours.FindGoalCoords | hrd.py:239-284 | The anchor found is on the board, at most one row up and one column left of the cell. It steps left or up only onto a cell showing '1', except from the two bottom corners, whose branches step without reading the grid. |
| Neighbours.GoalCoordsFindAnchor | hrd.py:239-284 | On a well-formed board, any cell of the goal block leads to the block's top-left anchor. |
| Neighbours.AnchorOf | hrd.py:291-310 | None iff the cell holds no piece symbol ('1', '<', '^', '2', '>', 'v'). The anchor is at most one step up and one step left. Apart from the goal block, it is one row up exactly for 'v' and one column left exactly for '>'. |
| Neighbours.FirstAnchoredAt | hrd.py:312-315 | None iff no piece has that anchor. Otherwise it is the first piece anchored there. |
| Neighbours.IdNeighbour | hrd.py:286-315 | A found piece is the piece list's entry at the returned index. |
| Neighbours.AnchorOfOccupied | hrd.py:286-311 | An occupied cell leads to the anchor of the piece covering it: left of '>', above 'v', itself for '<', '^' and '2', and through the goal search for '1'. |
| Neighbours.AnchorsDistinct | hrd.py:312-315 | On a well-formed board no two pieces share an anchor, so the first match is the covering piece. |
| Neighbours.IdNeighbourFindsOccupant | hrd.py:286-315 | A cell is resolvable. The result is (None, None) iff the cell is empty, and otherwise it is the piece covering the cell. |
| Neighbours.WellFormedNeighboursResolvable | hrd.py:317-347 | On a well-formed board every in-grid neighbour of a space resolves to a piece or to None. |
| Neighbours.VerticalNeighbours | hrd.py:324-334 | One or two candidates, one for each of 'u' (from the cell below) and 'd' (from the cell above) whose source cell is on the board, no direction twice, each naming what id_neighbour finds in its source cell. |
| Neighbours.HorizontalNeighbours | hrd.py:335-345 | The same for 'l' (from the cell to the right) and 'r' (from the cell to the left). |
| Neighbours.AxisNeighboursJoin | hrd.py:317-347 | Vertical candidates followed by horizontal ones give one entry per in-grid neighbour over all four directions. |
| Neighbours.FindNeighbours | hrd.py:317-347 | res is kept as a prefix and 2 to 4 entries are appended. There is one entry for each direction whose source cell is in the grid: 'u' from below, 'd' from above, 'l' from the right, 'r' from the left. Each entry names the piece found in that cell. |
| Legality.Entering | hrd.py:349-413 | A move along an axis enters as many cells as the piece spans across that axis. |
| Legality.EnteringCells | hrd.py:349-413 | The entered cells are exactly those the moved piece covers and the piece did not. |
| Legality.Leaving | hrd.py:436-437 | A move leaves as many cells as it enters. |
| Legality.LeavingCells | hrd.py:436-437 | The left cells are exactly those the piece covered and the moved piece does not. |
| Legality.ValidOn | hrd.py:358-413 | Singles always pass, and so do dominoes along their own axis. A block or domino with an unrecognised direction fails. |
| Legality.IsValidMove | hrd.py:349-415 | A None piece is never valid. Singles and along-axis dominoes are always valid. Goal-block moves and sideways domino moves are valid iff every entered cell is '.'. |
| Legality.ClearOfPair | hrd.py:360-412 | Each checked move enters exactly two cells, and "all entered cells are '.'" is the source's two-cell test. |
| Legality.ValidOnReadsEntering | hrd.py:358-413 | For the checked moves, validity is exactly "the entered cells are '.'". |
| Legality.MovedPieces | hrd.py:436-439 | The new piece list has the same length as the old. Entry i is the moved piece and every other entry is unchanged. |
| Legality.MovesApart | hrd.py:436-439 | Moving a different piece, or the same piece in a different direction, gives a different piece list. |
| Successors.ValidMoveIsLegal | hrd.py:349-415 | For a candidate proposed by find_neighbours on a well-formed board, is_valid_move holds iff the candidate names a piece and moving it is legal: the piece stays on the board and enters only empty cells. |
| Successors.ValidMoveOfPiece | hrd.py:349-415 | For a piece next to an empty cell in direction d, is_valid_move holds iff the move is legal. |
| Successors.ClearIffVacant | hrd.py:349-415 | The entered cells read '.' iff no piece covers them. |
| Successors.CandidateGeometry | hrd.py:317-347 | A piece next to a space, moving toward it, enters the space. Every cell it enters is in the grid and so is the moved piece. A single-cell-wide move enters just the space. |
| Successors.MovedWellFormed | hrd.py:436-440 | A legal move on a well-formed board gives a well-formed board. |
| Successors.SpacesTrade | hrd.py:436-440 | A legal move trades empty cells one for one. The entered cells were empty and are filled, the left cells were filled and are emptied, there are as many left as entered, and every other cell keeps its state. So the number of empty cells is conserved. |
| Successors.SpacesKept | hrd.py:436-440 | A legal move from a well-formed board with at most two spaces gives a board with at most two spaces. |
| Successors.StepKeepsSpaces | hrd.py:436-440 | Every board one legal move away from a well-formed board with at most two spaces has at most two spaces. |
| Successors.HeuristicConsistent | hrd.py:230-237 | One legal move changes the heuristic by at most one. |
| Successors.HeuristicAdmissible | hrd.py:230-237 | A sequence of legal moves ending at a goal is at least as long as the heuristic of its first board. |
| Successors.Dedup | hrd.py:429-430 | Removing duplicate candidates keeps the same members, with no repeats. |
| Successors.LegalMoveEntersSpace | hrd.py:417-427 | With at most two spaces, a legal move enters one of the two spaces that find_spaces reports, from a neighbouring cell. |
| Successors.FoundCandidates | hrd.py:425-427 | Each listed candidate matches what its cell holds. With at most two spaces, every legal move is listed. |
| Successors.TriedCandidates | hrd.py:425-430 | The same facts hold after duplicates are removed. |
| Successors.Child | hrd.py:436-448 | The new state is a child: depth + 1, the parent's position, f = depth + heuristic, and the piece list with the one piece moved. |
| Successors.CandidatesApart | hrd.py:433-439 | Two different candidates that find_neighbours can propose never produce the same piece list. |
| Successors.AcceptedMoves | hrd.py:433-434 | A candidate is accepted iff it is among those tried, names a piece, and that piece's move is legal. No candidate is accepted twice. |
| Successors.MakeChildren | hrd.py:436-448 | One child per accepted candidate, in order, each holding the piece list that candidate's move produces. |
| Successors.ChildrenApart | hrd.py:429-439 | Children of distinct proposed candidates have pairwise different piece lists. |
| Successors.AddChildren | hrd.py:433-448 | Earlier successors are kept as a prefix and every added state is a child. Each legal candidate move yields a child, and no two added children share a piece list. |
| Successors.MovesToTry | hrd.py:419-430 | Every move to try is a proposed move, none is listed twice, and on boards with at most two spaces every legal move of every piece is listed. |
| Successors.GenerateSuccessors | hrd.py:417-451 | The input list is kept as a prefix and each added state is a child of the expanded state. No two added states have the same piece list. On boards with at most two spaces, every legal move of every piece yields a child. |
| SearchTree.KeyInKeys | hrd.py:108-111 | The key of a well-formed board is one of the finitely many 20-character strings over the alphabet. |
| SearchTree.SameKeySameGrid | hrd.py:108-111 | Two grids have the same key iff they are equal. |
| SearchTree.Shrinks | hrd.py:476 | Exploring a new key decreases the number of unexplored keys. |
| SearchTree.SkipStep | hrd.py:470-472 | Popping an explored key keeps the search invariant. |
| SearchTree.ExpandKeepsClosed | hrd.py:476-480 | Expanding a state whose every legal move is pushed keeps the expanded boards closed under legal moves. |
| SearchTree.ExpandKeepsLinked | hrd.py:476-480 | Appending the expanded state keeps every parent link pointing at an earlier expanded state. |
| SearchTree.ExpandStep | hrd.py:476-480 | Expanding a new, non-goal state keeps the search invariant. |
| SearchTree.ExpandSpaced | hrd.py:476-480 | From an initial board with at most two spaces, the expanded state and every state pushed after it have at most two spaces. |
| SearchTree.PruneTree | hrd.py:476-480 | Marking the key explored keeps expanded keys distinct and expanded states non-goal. |
| SearchTree.GoalPopped | hrd.py:476-479 | A goal popped with a new key is a goal reachable from the initial state. The initial board is a goal exactly when the result is the initial state with nothing expanded. |
| SearchTree.Exhausted | hrd.py:470-481 | When the frontier runs dry, the expanded boards are closed under legal moves. If the initial board has at most two spaces, so has every expanded board. |
| SearchTree.FailureClosed | hrd.py:465-481 | After a failed search from a board with at most two spaces, every legal move from every expanded board leads to a grid that was expanded. |
| Search.Expand | hrd.py:480 | The successors are pushed onto the rest of the frontier, and the invariant holds for the grown tree. Astar uses the same step (hrd.py:497-498). |
| Search.DfsPass | hrd.py:470-480 | One pass ends in a reachable goal or keeps the invariant, while the termination measure decreases. |
| Search.Dfs | hrd.py:465-481 | A returned state is a goal reached from the initial state by legal moves. No expanded board is a goal and no key is expanded twice. On failure, the expanded boards are closed under legal moves. From an initial board with at most two spaces, every expanded board has at most two spaces, so this closure covers every expanded board (`SearchTree.FailureClosed`). |
| Search.ChildNotCheaper | hrd.py:446-447 | The child of a scored state is scored, and its f is at least its parent's. |
| Search.OrderStep | hrd.py:490-498 | Expanding a state of least f keeps the expanded f values sorted, and none above any waiting f. |
| Search.GoalFinishes | hrd.py:492-496 | A goal popped with least f has f equal to its depth and no smaller than any expanded f. |
| Search.PopMin | hrd.py:491 | Removes one state of least f, and the rest is the frontier minus that state (as multisets). |
| Search.AstarPass | hrd.py:490-498 | One pass behaves as DfsPass does, and when the initial state is scored it also keeps the A* order. |
| Search.Astar | hrd.py:483-499 | Everything Dfs promises. When the initial state is scored as main scores it, states are expanded in non-decreasing f. A goal found has f equal to its depth, and that is no smaller than any expanded f. |
| Solution.ChainCons | hrd.py:458-461 | Putting a parent in front of a chain of moves extends the chain. |
| Solution.BacktrackStep | hrd.py:459-461 | Putting the current state in front keeps both facts below, and a state other than the initial one is the child of the earlier state its parent link names. |
| Solution.WalkCons | hrd.py:460-461 | Putting in front the state a parent link names keeps every state linked to the one before it. |
| Solution.Backtrack | hrd.py:458-461 | Walking parent links ends at the initial state and keeps the goal last. Each state after the first names the one before it as its parent, and each step is a legal move one level deeper. |
| Solution.GetSolution | hrd.py:453-463 | As written: when the goal has a parent, the result runs from the initial state to the goal, each state the parent of the next, by legal moves. When the goal has no parent, the walk fails. |
| Solution.GetSolutionFixed | hrd.py:453-463 | Always a path from the initial state to the goal along parent links, by legal moves. |
| Solution.FixedAgrees | hrd.py:453-463 | The corrected walk returns what the source returns whenever the source returns. It differs only when the goal is the initial state. |
| Solution.InitialGoalFails | hrd.py:458-461 | Exhibits the failure: an initial state with no parent makes the walk fail, while the corrected walk gives the one-state solution. |
| Solution.DepthGrows | hrd.py:446-447 | Along a chain, depth grows by one per move. |
| Solution.SolutionLength | hrd.py:453-463 | A solution's last depth is the first depth plus the number of moves, and the number of moves is at least the heuristic of the first board. |
| Solution.SearchSolution | hrd.py:453-499 | After either search finds a goal, the reconstructed solution follows parent links from the initial state to that goal by legal moves. Its move count is the goal's depth minus the initial depth, so the goal's depth when the initial depth is 0, as main sets it. The move count is at least the initial heuristic. |
| Solution.SpreadAt | hrd.py:501-513 | In the text of a key, each symbol and each line break lands at a known position. |
| Solution.SpreadCells | hrd.py:506-509 | In the spread key, cell (i, j) of the grid sits at (Width + 1) * i + j. |
| Solution.SpreadRows | hrd.py:506-509 | The spread key is the five grid rows, each followed by a newline. |
| Solution.ConvertToStr | hrd.py:501-513 | The text of a board has TextLength = (Width + 1) * Height + 1 = 26 characters: grid row i followed by a newline at 5i, so cell (i, j) at 5i + j, then a blank line. |
| Solution.SolutionText | hrd.py:520-526 | The text of a solution has TextLength characters per state, and block j is the text of state j. |

## Left out

- `read_from_file`, `Board.display`, the file handling of `write_solution` and the `__main__` block (argparse, timing) are input and output. Only the text that `write_solution` writes is modelled (`Solution.SolutionText`).
- `State.id` (hash of the board) is not modelled. It breaks A* ties by an identity-based hash, so the value varies between runs. `Search.PopMin` promises only some state of least f.
- `heapq`, `deepcopy` and Python object identity are replaced by value semantics. `get_solution`'s `p != initial_state` is an identity test; the model stops at tree position 0, which holds the initial state.
- `Successors.Dedup`: `set()` in `generate_successors` gives an order that depends on object hashes. The model keeps first occurrences in list order, so only the set of candidates tried matches the source, not their order.
- `Successors.GenerateSuccessors`: requires a well-formed board (pieces inside the grid and not overlapping). This is stronger than what avoids a crash in the source.
- `Search.Dfs`: closure under legal moves on failure is proved for every expanded board only when the initial board has at most two empty cells (moves conserve the empty cells, `Successors.SpacesTrade` and `Successors.SpacesKept`). `read_from_file` does not check the count. From a board with more spaces, `generate_successors` looks only next to the first two it finds, so closure is promised only at expanded boards with at most two spaces. The same holds for `Search.Astar`.
- `Search.Astar`: the model does not prove that A* finds a shortest solution. It proves that the expanded f values never decrease, that the goal's f is its depth, and that no expanded f exceeds it. These hold when the initial state is scored as `main` scores it (f = heuristic, depth 0).
- `Boards.FindSpaces`: the source loop ends as soon as one pass has counted two or more '.' cells, so the code terminates on a grid with a single '.'. It then reports that cell twice. The model follows the code and requires one '.' cell, not two.
- `Neighbours.GoalCoordsFindAnchor`: the third corner branch of `find_goal_coords` (hrd.py:250) repeats the first test and is never taken. The top-right corner goes through the top-edge branch, and the model follows that control flow.
- `Neighbours.IdNeighbour`: when no piece has the computed anchor, the source returns a bare None, which the caller cannot unpack. The model requires a matching piece to exist.
- `Goals.Heuristic`: the source returns None on a board without a goal piece. The model requires a goal piece.
- `main` calls `get_solution` even when the search returns None, which raises. That path is outside the model.

## Findings

| source | as written | input that shows it | evidently intended | confidence | as-written member | corrected member |
|---|---|---|---|---|---|---|
| hrd.py:453-463 | `get_solution` reads `goal_state.parent` and then loops on `p != initial_state`, reading `p.parent`. When the goal is the initial state, p is None and `None.parent` raises. | A puzzle whose goal block already sits at row 3, column 1. `dfs` and `astar` then return the initial state itself. | The one-state solution `[initial_state]`. | not executed | Solution.GetSolution, Solution.InitialGoalFails | Solution.GetSolutionFixed |
