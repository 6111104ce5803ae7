/**
  The two searches of hrd.py: dfs (a stack frontier) and astar (a frontier
  ordered by f).  Both prune by grid_str, stop at the first goal state they
  pop, and give up when the frontier runs dry.  Besides the goal state they
  return the search tree, the expanded states in expansion order, which
  the parent positions of the returned states index.
 */
module Search {
  import opened Wrappers
  import opened Pieces
  import opened Boards
  import opened Goals
  import opened Legality
  import opened Successors
  import opened SearchTree

  /** Expands curr, popped from frontier leaving rest: its successors are
      pushed onto rest, as generate_successors(curr, frontier) does. */
  method Expand(init: State, tree: seq<State>, frontier: seq<State>, explored: set<string>,
                curr: State, rest: seq<State>) returns (next: seq<State>)
    requires Searching(init, tree, frontier, explored) && Popped(frontier, curr, rest)
    requires WellFormed(curr.board) && GridStr(curr.board) !in explored && !IsGoal(curr.board)
    ensures |next| >= |rest| && next[..|rest|] == rest
    ensures forall k :: |rest| <= k < |next| ==> ChildOf(curr, |tree|, next[k])
    ensures Searching(init, tree + [curr], next, explored + {GridStr(curr.board)})
  {
    next := GenerateSuccessors(curr, |tree|, rest);
    assert Expansion(init, tree, frontier, explored, curr, rest, next);
    ExpandStep(init, tree, frontier, explored, curr, rest, next);
  }

  /** One pass of the loop of dfs: pop the most recently pushed state; skip
      it when its grid was explored already; otherwise mark it explored,
      stop with it if it is a goal, and push its successors.  Each pass
      either explores a new grid or shortens the frontier. */
  method DfsPass(init: State, tree: seq<State>, frontier: seq<State>, explored: set<string>)
    returns (goal: Option<State>, tree2: seq<State>, frontier2: seq<State>, explored2: set<string>)
    requires Searching(init, tree, frontier, explored) && |frontier| > 0
    ensures goal.Some? ==> Outcome(init, goal, tree2)
    ensures goal.None? ==> Searching(init, tree2, frontier2, explored2)
    ensures goal.None? ==> |Keys - explored2| < |Keys - explored| || (explored2 == explored && |frontier2| < |frontier|)
  {
    var curr := frontier[|frontier| - 1];
    var rest := frontier[..|frontier| - 1];
    PopLast(frontier);
    var key := GridStr(curr.board);
    if key in explored {
      SkipStep(init, tree, frontier, explored, curr, rest);
      return None, tree, rest, explored;
    }
    KeyInKeys(curr.board);
    Shrinks(Keys, explored, key);
    if IsGoal(curr.board) {
      GoalPopped(init, tree, frontier, explored, curr, rest);
      return Some(curr), tree, rest, explored + {key};
    }
    var next := Expand(init, tree, frontier, explored, curr, rest);
    return None, tree + [curr], next, explored + {key};
  }

  /** dfs: repeat the pass until it finds a goal or the frontier runs dry.
      A returned state is a goal reached from init by legal moves; no
      expanded board is a goal and no grid is expanded twice; when the
      search fails the expanded grids are closed under legal moves. */
  method Dfs(init: State) returns (found: Option<State>, tree: seq<State>)
    requires WellFormed(init.board)
    ensures Outcome(init, found, tree)
  {
    var frontier := [init];
    var explored: set<string> := {};
    tree := [];
    Start(init);
    while |frontier| > 0
      invariant Searching(init, tree, frontier, explored)
      decreases |Keys - explored|, |frontier|
    {
      var goal;
      goal, tree, frontier, explored := DfsPass(init, tree, frontier, explored);
      if goal.Some? {
        return goal, tree;
      }
    }
    Exhausted(init, tree, explored);
    return None, tree;
  }

  /** A state whose f is its depth plus the heuristic of its board, as
      main builds the initial state and generate_successors every other. */
  ghost predicate Scored(s: State) {
    WellFormed(s.board) && s.f == s.depth + Heuristic(s.board)
  }

  /** The order A* keeps: all states scored, the expanded ones in
      non-decreasing f, and none waiting with a smaller f than an expanded
      one. */
  ghost predicate Ordered(tree: seq<State>, frontier: seq<State>) {
    && (forall m :: 0 <= m < |tree| ==> Scored(tree[m]))
    && (forall s :: s in frontier ==> Scored(s))
    && (forall p, q :: 0 <= p < q < |tree| ==> tree[p].f <= tree[q].f)
    && (forall m, s :: 0 <= m < |tree| && s in frontier ==> tree[m].f <= s.f)
  }

  /** A child is never cheaper than its parent: f = g + h with unit moves
      and a heuristic that changes by at most one per move. */
  lemma ChildNotCheaper(parent: State, index: nat, child: State)
    requires Scored(parent) && ChildOf(parent, index, child)
    ensures Scored(child) && parent.f <= child.f
  {
    HeuristicConsistent(parent.board, child.board);
  }

  /** Expanding a state of least f keeps the A* order. */
  lemma OrderStep(tree: seq<State>, frontier: seq<State>, curr: State, rest: seq<State>, next: seq<State>)
    requires Ordered(tree, frontier) && Popped(frontier, curr, rest)
    requires forall s :: s in frontier ==> curr.f <= s.f
    requires |next| >= |rest| && next[..|rest|] == rest
    requires forall k :: |rest| <= k < |next| ==> ChildOf(curr, |tree|, next[k])
    ensures Ordered(tree + [curr], next)
  {
    var tree2 := tree + [curr];
    forall s | s in next ensures Scored(s) && curr.f <= s.f {
      var j :| 0 <= j < |next| && next[j] == s;
      if j < |rest| {
        assert s in rest;
      } else {
        ChildNotCheaper(curr, |tree|, s);
      }
    }
    forall m | 0 <= m < |tree2| ensures Scored(tree2[m]) && tree2[m].f <= curr.f {
      if m < |tree| {
        assert tree2[m] == tree[m];
      }
    }
    forall p, q | 0 <= p < q < |tree2| ensures tree2[p].f <= tree2[q].f {
      assert tree2[p] == tree[p];
      if q < |tree| {
        assert tree2[q] == tree[q];
      }
    }
  }

  /** A* stops at a goal popped with least f: its f is its depth, since
      the heuristic of a goal board is 0, and no expanded f exceeds it. */
  ghost predicate Finished(tree: seq<State>, goal: State) {
    && (forall p, q :: 0 <= p < q < |tree| ==> tree[p].f <= tree[q].f)
    && goal.f == goal.depth
    && (forall m :: 0 <= m < |tree| ==> tree[m].f <= goal.f)
  }

  lemma GoalFinishes(tree: seq<State>, frontier: seq<State>, goal: State)
    requires Ordered(tree, frontier) && goal in frontier
    requires Shaped(goal.board.grid) && IsGoal(goal.board)
    ensures Finished(tree, goal)
  {
    GoalTestMatchesHeuristic(goal.board);
  }

  /** heappop: take out a state of least f.  The heap breaks ties by
      State.id; any state of least f may come out here. */
  method PopMin(frontier: seq<State>) returns (curr: State, rest: seq<State>)
    requires |frontier| > 0
    ensures Popped(frontier, curr, rest)
    ensures multiset(rest) + multiset{curr} == multiset(frontier)
    ensures forall s :: s in frontier ==> curr.f <= s.f
  {
    var m := 0;
    for i := 1 to |frontier|
      invariant 0 <= m < |frontier|
      invariant forall j :: 0 <= j < i ==> frontier[m].f <= frontier[j].f
    {
      if frontier[i].f < frontier[m].f {
        m := i;
      }
    }
    curr, rest := frontier[m], frontier[..m] + frontier[m + 1..];
    assert frontier == frontier[..m] + [curr] + frontier[m + 1..];
    forall s | s in frontier ensures s == curr || s in rest {
      var j :| 0 <= j < |frontier| && frontier[j] == s;
      if j < m {
        assert rest[j] == s;
      } else if j > m {
        assert rest[j - 1] == s;
      }
    }
  }

  /** One pass of the loop of astar: pop a state of least f; skip it when
      its grid was explored already; otherwise mark it explored, stop with
      it if it is a goal, and push its successors. */
  method AstarPass(init: State, tree: seq<State>, frontier: seq<State>, explored: set<string>)
    returns (goal: Option<State>, tree2: seq<State>, frontier2: seq<State>, explored2: set<string>)
    requires Searching(init, tree, frontier, explored) && |frontier| > 0
    requires Scored(init) ==> Ordered(tree, frontier)
    ensures goal.Some? ==> Outcome(init, goal, tree2)
    ensures goal.Some? && Scored(init) ==> Finished(tree2, goal.value)
    ensures goal.None? ==> Searching(init, tree2, frontier2, explored2)
    ensures goal.None? && Scored(init) ==> Ordered(tree2, frontier2)
    ensures goal.None? ==> |Keys - explored2| < |Keys - explored| || (explored2 == explored && |frontier2| < |frontier|)
  {
    var curr, rest := PopMin(frontier);
    var key := GridStr(curr.board);
    if key in explored {
      SkipStep(init, tree, frontier, explored, curr, rest);
      return None, tree, rest, explored;
    }
    KeyInKeys(curr.board);
    Shrinks(Keys, explored, key);
    if IsGoal(curr.board) {
      GoalPopped(init, tree, frontier, explored, curr, rest);
      if Scored(init) {
        GoalFinishes(tree, frontier, curr);
      }
      return Some(curr), tree, rest, explored + {key};
    }
    var next := Expand(init, tree, frontier, explored, curr, rest);
    if Scored(init) {
      OrderStep(tree, frontier, curr, rest, next);
    }
    return None, tree + [curr], next, explored + {key};
  }

  /** astar: repeat the pass until it finds a goal or the frontier runs
      dry.  Besides what dfs promises: when init is scored as main scores
      it, states are expanded in non-decreasing f, and a goal found has f
      equal to its depth and no smaller than any expanded f. */
  method Astar(init: State) returns (found: Option<State>, tree: seq<State>)
    requires WellFormed(init.board)
    ensures Outcome(init, found, tree)
    ensures Scored(init) ==> forall p, q :: 0 <= p < q < |tree| ==> tree[p].f <= tree[q].f
    ensures Scored(init) && found.Some? ==> Finished(tree, found.value)
  {
    var frontier := [init];
    var explored: set<string> := {};
    tree := [];
    Start(init);
    while |frontier| > 0
      invariant Searching(init, tree, frontier, explored)
      invariant Scored(init) ==> Ordered(tree, frontier)
      decreases |Keys - explored|, |frontier|
    {
      var goal;
      goal, tree, frontier, explored := AstarPass(init, tree, frontier, explored);
      if goal.Some? {
        return goal, tree;
      }
    }
    Exhausted(init, tree, explored);
    return None, tree;
  }
}
