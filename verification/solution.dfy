/**
  Turning a search result into the solution file of hrd.py: get_solution
  walks parent links back from the goal to the initial state, and
  convert_to_str / write_solution print each board of the solution as
  five lines of four symbols followed by a blank line.
 */
module Solution {
  import opened Wrappers
  import opened Pieces
  import opened Boards
  import opened Goals
  import opened Legality
  import opened Successors
  import opened SearchTree

  /** Consecutive states of path are one legal move and one level apart. */
  ghost predicate Chain(path: seq<State>) {
    forall j :: 0 <= j < |path| - 1 ==>
      path[j + 1].depth == path[j].depth + 1 && Step(path[j].board, path[j + 1].board)
  }

  /** Each state of path but the first names, as its parent, the
      position in tree of the state just before it. */
  ghost predicate Walk(tree: seq<State>, path: seq<State>) {
    forall j :: 0 < j < |path| ==>
      path[j].parent.Some? && path[j].parent.value < |tree| && tree[path[j].parent.value] == path[j - 1]
  }

  /** The state a parent link names, put in front of a walk, extends it. */
  lemma WalkCons(tree: seq<State>, k: nat, suffix: seq<State>)
    requires k < |tree| && |suffix| > 0 && Walk(tree, suffix) && suffix[0].parent == Some(k)
    ensures Walk(tree, [tree[k]] + suffix)
  {
    var path := [tree[k]] + suffix;
    forall j | 0 < j < |path|
      ensures path[j].parent.Some? && path[j].parent.value < |tree| && tree[path[j].parent.value] == path[j - 1]
    {
      if j > 1 {
        assert path[j] == suffix[j - 1] && path[j - 1] == suffix[j - 2];
      }
    }
  }

  /** A legal move one level up, put in front of a chain, extends it. */
  lemma ChainCons(st: State, suffix: seq<State>)
    requires |suffix| > 0 && Chain(suffix)
    requires suffix[0].depth == st.depth + 1 && Step(st.board, suffix[0].board)
    ensures Chain([st] + suffix)
  {
    var path := [st] + suffix;
    forall j | 0 <= j < |path| - 1
      ensures path[j + 1].depth == path[j].depth + 1 && Step(path[j].board, path[j + 1].board)
    {
      if j > 0 {
        assert path[j] == suffix[j - 1] && path[j + 1] == suffix[j];
      }
    }
  }

  /** The last state of a path. */
  function Last(path: seq<State>): State
    requires |path| > 0
  {
    path[|path| - 1]
  }

  /** One turn of the loop of get_solution: tree[k] in front of suffix
      still walks parent links by legal moves, and, short of the initial
      state, tree[k] is the child of the earlier state its link names. */
  lemma BacktrackStep(tree: seq<State>, k: nat, suffix: seq<State>)
    requires k < |tree| && ParentsEarlier(tree)
    requires |suffix| > 0 && Chain(suffix) && ChildOf(tree[k], k, suffix[0]) && Walk(tree, suffix)
    ensures Chain([tree[k]] + suffix) && Walk(tree, [tree[k]] + suffix)
    ensures k > 0 ==> tree[k].parent.Some? && tree[k].parent.value < k
    ensures k > 0 ==> ChildOf(tree[tree[k].parent.value], tree[k].parent.value, tree[k])
  {
    ChainCons(tree[k], suffix);
    WalkCons(tree, k, suffix);
    if k > 0 {
      assert ChildIn(tree, k, tree[k]);
    }
  }

  /** The loop of get_solution from p = tree[k] on, with suffix the states
      already collected: it stops at the initial state, position 0, and
      puts it in front.  Every state it adds is the one the parent link of
      the next names. */
  function Backtrack(tree: seq<State>, k: nat, suffix: seq<State>): (r: seq<State>)
    requires k < |tree| && ParentsEarlier(tree)
    requires |suffix| > 0 && Chain(suffix) && ChildOf(tree[k], k, suffix[0]) && Walk(tree, suffix)
    ensures |r| > |suffix| && r[0] == tree[0] && Last(r) == Last(suffix)
    ensures Chain(r) && Walk(tree, r)
    decreases k
  {
    BacktrackStep(tree, k, suffix);
    var path := [tree[k]] + suffix;
    assert Last(path) == Last(suffix);
    if k == 0 then path
    else Backtrack(tree, tree[k].parent.value, path)
  }

  /** get_solution as written: the goal first, then parents inserted in
      front until the initial state.  When the goal has no parent it is the
      initial state itself, and the loop reads the parent of None, which
      raises; None stands for that failure. */
  function GetSolution(tree: seq<State>, goal: State): (r: Option<seq<State>>)
    requires ParentsEarlier(tree) && (goal.parent.Some? ==> ChildIn(tree, |tree|, goal))
    ensures goal.parent.None? ==> r.None?
    ensures goal.parent.Some? ==> r.Some? && |r.value| > 1 && r.value[0] == tree[0] && r.value[|r.value| - 1] == goal
    ensures r.Some? ==> Chain(r.value) && Walk(tree, r.value)
  {
    match goal.parent
    case None => None
    case Some(q) => Some(Backtrack(tree, q, [goal]))
  }

  /** get_solution as evidently intended: a goal without a parent is the
      initial state, and the solution is that state alone. */
  function GetSolutionFixed(tree: seq<State>, init: State, goal: State): (r: seq<State>)
    requires Linked(tree, init) && Rooted(tree, init, goal) && init.parent.None?
    ensures |r| > 0 && r[0] == init && r[|r| - 1] == goal && Chain(r) && Walk(tree, r)
  {
    match GetSolution(tree, goal)
    case None => [goal]
    case Some(path) => path
  }

  /** The corrected walk agrees with the source wherever the source
      returns. */
  lemma FixedAgrees(tree: seq<State>, init: State, goal: State)
    requires Linked(tree, init) && Rooted(tree, init, goal) && init.parent.None?
    ensures goal.parent.Some? ==> GetSolution(tree, goal) == Some(GetSolutionFixed(tree, init, goal))
    ensures goal.parent.None? ==> goal == init && GetSolutionFixed(tree, init, goal) == [init]
  {
  }

  /** The failure of get_solution: when the initial state is itself a goal,
      dfs and astar return it, and get_solution raises instead of returning
      the one-state solution. */
  lemma InitialGoalFails(init: State)
    requires init.parent.None?
    ensures GetSolution([], init).None?
    ensures GetSolutionFixed([], init, init) == [init]
  {
  }

  /** A solution is as long as the depth it reaches, and never shorter
      than the heuristic of its first board promises. */
  lemma {:induction false} SolutionLength(path: seq<State>)
    requires |path| > 0 && Chain(path) && WellFormed(path[0].board)
    requires Shaped(path[|path| - 1].board.grid) && IsGoal(path[|path| - 1].board)
    ensures path[|path| - 1].depth == path[0].depth + |path| - 1
    ensures HasGoal(path[0].board.pieces) && Heuristic(path[0].board) <= |path| - 1
  {
    var boards := seq(|path|, j requires 0 <= j < |path| => path[j].board);
    assert Path(boards);
    HeuristicAdmissible(boards);
    DepthGrows(path);
  }

  /** What main writes out after a successful search: a chain of legal
      moves from init to the goal found, as many moves long as the goal is
      deep, and no shorter than the heuristic of the initial board. */
  lemma SearchSolution(init: State, goal: State, tree: seq<State>)
    requires Outcome(init, Some(goal), tree) && init.parent.None?
    ensures var path := GetSolutionFixed(tree, init, goal);
      && path[0] == init && path[|path| - 1] == goal && Chain(path) && Walk(tree, path)
      && goal.depth == init.depth + |path| - 1
      && HasGoal(init.board.pieces) && Heuristic(init.board) <= |path| - 1
  {
    var path := GetSolutionFixed(tree, init, goal);
    SolutionLength(path);
  }

  lemma {:induction false} DepthGrows(path: seq<State>)
    requires |path| > 0 && Chain(path)
    ensures path[|path| - 1].depth == path[0].depth + |path| - 1
    decreases |path|
  {
    if |path| > 1 {
      var front := path[..|path| - 1];
      assert Chain(front) by {
        forall j | 0 <= j < |front| - 1
          ensures front[j + 1].depth == front[j].depth + 1 && Step(front[j].board, front[j + 1].board)
        {
          assert front[j] == path[j] && front[j + 1] == path[j + 1];
        }
      }
      DepthGrows(front);
    }
  }

  /** The loop of convert_to_str from index i of the key on: each symbol,
      and a newline after every fourth. */
  function Spread(key: string, i: nat): (r: string)
    requires i <= |key|
    decreases |key| - i
  {
    if i == |key| then ""
    else [key[i]] + (if (i + 1) % Width == 0 then "\n" else "") + Spread(key, i + 1)
  }

  /** Where the symbols and newlines of Spread land: symbol t sits after
      the t - i symbols and the newlines emitted before it. */
  lemma {:induction false} SpreadAt(key: string, i: nat)
    requires i <= |key|
    ensures |Spread(key, i)| == (|key| - i) + (|key| / Width - i / Width)
    ensures forall t :: i <= t < |key| ==> Spread(key, i)[(t - i) + (t / Width - i / Width)] == key[t]
    ensures forall t :: i <= t < |key| && (t + 1) % Width == 0 ==>
      Spread(key, i)[(t - i) + (t / Width - i / Width) + 1] == '\n'
    decreases |key| - i
  {
    if i < |key| {
      SpreadAt(key, i + 1);
      var head := [key[i]] + (if (i + 1) % Width == 0 then "\n" else "");
      assert |head| == 1 + ((i + 1) / Width - i / Width);
      assert Spread(key, i) == head + Spread(key, i + 1);
    }
  }

  /** The key of a board, spread: cell (i, j) of the grid sits at
      (Width + 1) * i + j, after the newlines of the rows before. */
  lemma {:induction false} SpreadCells(b: Board)
    requires Shaped(b.grid)
    ensures |Spread(GridStr(b), 0)| == (Width + 1) * Height
    ensures forall i, j :: 0 <= i < Height && 0 <= j < Width ==> Spread(GridStr(b), 0)[(Width + 1) * i + j] == b.grid[i][j]
  {
    var key := GridStr(b);
    SpreadAt(key, 0);
    var r := Spread(key, 0);
    forall i, j | 0 <= i < Height && 0 <= j < Width ensures r[(Width + 1) * i + j] == b.grid[i][j] {
      RowCell(i, j);
      assert key[Width * i + j] == b.grid[i][j];
    }
  }

  /** The key of a board, spread: its five grid rows, each ended by a
      newline. */
  lemma SpreadRows(b: Board)
    requires Shaped(b.grid)
    ensures |Spread(GridStr(b), 0)| == (Width + 1) * Height
    ensures forall i :: 0 <= i < Height ==>
      Spread(GridStr(b), 0)[(Width + 1) * i .. (Width + 1) * (i + 1)] == b.grid[i] + "\n"
    ensures forall i, j :: 0 <= i < Height && 0 <= j < Width ==> Spread(GridStr(b), 0)[(Width + 1) * i + j] == b.grid[i][j]
  {
    var key := GridStr(b);
    SpreadCells(b);
    SpreadAt(key, 0);
    var r := Spread(key, 0);
    forall i | 0 <= i < Height
      ensures r[(Width + 1) * i .. (Width + 1) * (i + 1)] == b.grid[i] + "\n"
    {
      RowCell(i, Width - 1);
      assert r[(Width + 1) * i + Width] == '\n';
    }
  }

  /** Symbol t = Width * i + j of the key is cell (i, j), and Spread puts
      it after t symbols and the i newlines of the rows before. */
  lemma RowCell(i: int, j: int)
    requires 0 <= i < Height && 0 <= j < Width
    ensures (Width * i + j) / Width == i && (Width * i + j) % Width == j
    ensures (Width * i + j) + (Width * i + j) / Width == (Width + 1) * i + j
  {
  }

  /** The length of the text of one board: Height rows of Width symbols,
      each ended by a newline, and an empty line, so (Width + 1) * Height + 1
      (ConvertToStr checks the two agree). */
  const TextLength: int := 26

  /** convert_to_str: the board's grid rows, each ended by a newline, then
      an empty line: TextLength characters, with cell (i, j) at
      (Width + 1) * i + j. */
  function ConvertToStr(st: State): (r: string)
    requires Shaped(st.board.grid)
    ensures |r| == (Width + 1) * Height + 1 == TextLength
    ensures forall i :: 0 <= i < Height ==> r[(Width + 1) * i .. (Width + 1) * (i + 1)] == st.board.grid[i] + "\n"
    ensures forall i, j :: 0 <= i < Height && 0 <= j < Width ==> r[(Width + 1) * i + j] == st.board.grid[i][j]
    ensures r[(Width + 1) * Height] == '\n'
  {
    SpreadRows(st.board);
    var rows := Spread(GridStr(st.board), 0);
    var r := rows + "\n";
    assert r[..|rows|] == rows;
    r
  }

  /** The text write_solution puts in the output file: the boards of the
      solution one after another, board j in characters TextLength * j
      to TextLength * (j + 1). */
  function SolutionText(solution: seq<State>): (r: string)
    requires forall j :: 0 <= j < |solution| ==> Shaped(solution[j].board.grid)
    ensures |r| == TextLength * |solution|
    ensures forall j :: 0 <= j < |solution| ==> r[TextLength * j .. TextLength * (j + 1)] == ConvertToStr(solution[j])
    decreases |solution|
  {
    assert TextLength == 26;
    if |solution| == 0 then ""
    else
      var rest := SolutionText(solution[1..]);
      var r := ConvertToStr(solution[0]) + rest;
      assert forall j :: 0 <= j < |solution| ==> r[TextLength * j .. TextLength * (j + 1)] == ConvertToStr(solution[j]) by {
        forall j | 0 < j < |solution| ensures r[TextLength * j .. TextLength * (j + 1)] == ConvertToStr(solution[j]) {
          assert solution[j] == solution[1..][j - 1];
          assert r[TextLength * j .. TextLength * (j + 1)] == rest[TextLength * (j - 1) .. TextLength * j];
        }
      }
      r
  }
}
