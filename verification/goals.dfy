/**
  The goal test and the A* heuristic of hrd.py (is_goal, heuristic).  The
  puzzle is solved when the 2x2 goal block sits at the exit, anchor row 3,
  column 1.
 */
module Goals {
  import opened Wrappers
  import opened Pieces
  import opened Boards

  const TargetY: int := 3
  const TargetX: int := 1

  /** The 2x2 exit: the cells a goal block anchored at the target covers. */
  predicate AtExit(c: Cell) {
    TargetY <= c.y <= TargetY + 1 && TargetX <= c.x <= TargetX + 1
  }

  /** is_goal: reads the four cells (3,1), (3,2), (4,1) and (4,2); the
      board is solved when every cell of the exit shows '1'. */
  predicate IsGoal(b: Board)
    requires Shaped(b.grid)
    ensures IsGoal(b) <==> forall c :: InBoard(c) && AtExit(c) ==> b.grid[c.y][c.x] == '1'
  {
    var g := b.grid;
    assert AtExit(Cell(3, 1)) && AtExit(Cell(3, 2)) && AtExit(Cell(4, 1)) && AtExit(Cell(4, 2));
    At(g, 3, 1) == '1' && At(g, 3, 2) == '1' && At(g, 4, 1) == '1' && At(g, 4, 2) == '1'
  }

  function Abs(n: int): nat {
    if n < 0 then -n else n
  }

  /** Manhattan distance of a piece's anchor from the exit anchor. */
  function Distance(p: Piece): nat {
    Abs(TargetY - p.y) + Abs(TargetX - p.x)
  }

  predicate HasGoal(ps: seq<Piece>) {
    exists k :: 0 <= k < |ps| && ps[k].kind.Goal?
  }

  /** The loop of heuristic: the distance of the first goal piece in ps. */
  function GoalDistance(ps: seq<Piece>): (h: nat)
    requires HasGoal(ps)
    ensures forall k :: (0 <= k < |ps| && ps[k].kind.Goal? &&
      forall m :: 0 <= m < k ==> !ps[m].kind.Goal?) ==> h == Distance(ps[k])
  {
    if ps[0].kind.Goal? then Distance(ps[0])
    else
      assert HasGoal(ps[1..]) by {
        var k :| 0 <= k < |ps| && ps[k].kind.Goal?;
        assert ps[1..][k - 1] == ps[k];
      }
      var h := GoalDistance(ps[1..]);
      assert forall k :: 1 <= k < |ps| ==> ps[k] == ps[1..][k - 1];
      h
  }

  /** heuristic: the distance of the first goal piece in list order.  The
      source falls off its loop, returning None, when there is no goal
      piece; the caller then fails adding it to the depth. */
  function Heuristic(b: Board): (h: nat)
    requires HasGoal(b.pieces)
    ensures forall k :: (0 <= k < |b.pieces| && b.pieces[k].kind.Goal? &&
      forall m :: 0 <= m < k ==> !b.pieces[m].kind.Goal?) ==> h == Distance(b.pieces[k])
  {
    GoalDistance(b.pieces)
  }

  /** On a well-formed board the heuristic is the distance of the goal piece. */
  lemma HeuristicOfGoal(b: Board, k: nat)
    requires WellFormed(b) && k < |b.pieces| && b.pieces[k].kind.Goal?
    ensures HasGoal(b.pieces) && Heuristic(b) == Distance(b.pieces[k])
  {
  }

  /** On a well-formed board, a cell shows '1' exactly when the goal piece
      covers it. */
  lemma GoalCells(b: Board, k: nat, c: Cell)
    requires WellFormed(b) && k < |b.pieces| && b.pieces[k].kind.Goal? && InBoard(c)
    ensures b.grid[c.y][c.x] == '1' <==> Covers(b.pieces[k], c)
  {
    GridCell(b, c);
    if !Covers(b.pieces[k], c) && !Vacant(b.pieces, c) {
      var m :| 0 <= m < |b.pieces| && Covers(b.pieces[m], c);
      assert m != k;
    }
  }

  /** is_goal holds exactly when the goal piece is anchored at (3, 1), that
      is exactly when the heuristic is 0. */
  lemma GoalTestMatchesHeuristic(b: Board)
    requires WellFormed(b)
    ensures HasGoal(b.pieces)
    ensures IsGoal(b) <==> Heuristic(b) == 0
  {
    var k :| 0 <= k < |b.pieces| && b.pieces[k].kind.Goal?;
    HeuristicOfGoal(b, k);
    GoalCells(b, k, Cell(3, 1));
    GoalCells(b, k, Cell(3, 2));
    GoalCells(b, k, Cell(4, 1));
    GoalCells(b, k, Cell(4, 2));
  }

  /** On a well-formed board the goal test holds exactly when the goal
      block is anchored at the exit, row 3, column 1. */
  lemma GoalAtExit(b: Board, k: nat)
    requires WellFormed(b) && k < |b.pieces| && b.pieces[k].kind.Goal?
    ensures IsGoal(b) <==> b.pieces[k].y == TargetY && b.pieces[k].x == TargetX
  {
    GoalTestMatchesHeuristic(b);
    HeuristicOfGoal(b, k);
  }

}
