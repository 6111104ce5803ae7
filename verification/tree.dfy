/**
  The bookkeeping shared by dfs and astar in hrd.py.  A state's parent is a
  reference to the state it was generated from; here the states a search
  expands are kept in order in a sequence (the search tree) and a parent is
  a position in it.  The explored set holds grid_str keys, all of which are
  strings of length 20 over the grid alphabet, so it cannot grow forever.
 */
module SearchTree {
  import opened Wrappers
  import opened Pieces
  import opened Boards
  import opened Goals
  import opened Legality
  import opened Successors

  /** All strings of length n over the grid alphabet. */
  ghost function Words(n: nat): set<string> {
    if n == 0 then {""} else set w, c | w in Words(n - 1) && c in Alphabet :: w + [c]
  }

  lemma {:induction false} WordsHold(w: string)
    requires forall k :: 0 <= k < |w| ==> w[k] in Alphabet
    ensures w in Words(|w|)
  {
    if |w| > 0 {
      var u := w[..|w| - 1];
      WordsHold(u);
      assert w == u + [w[|w| - 1]];
    }
  }

  /** Every grid_str a board can have. */
  ghost const Keys: set<string> := Words(Height * Width)

  /** A grid painted with the grid alphabet has a key in Keys. */
  lemma KeyOfAlphabet(b: Board)
    requires Shaped(b.grid) && AllCells(b.grid, Alphabet)
    ensures GridStr(b) in Keys
  {
    var s := GridStr(b);
    forall k | 0 <= k < |s| ensures s[k] in Alphabet {
      var i, j := k / Width, k % Width;
      assert s[Width * i + j] == b.grid[i][j];
    }
    WordsHold(s);
  }

  /** The grid_str of a well-formed board is one of the finitely many Keys. */
  lemma KeyInKeys(b: Board)
    requires WellFormed(b)
    ensures Shaped(b.grid) && GridStr(b) in Keys
  {
    WellFormedIsBuilt(b);
    KeyOfAlphabet(b);
  }

  /** grid_str identifies the grid: two boards share a key exactly when
      they show the same grid. */
  lemma SameKeySameGrid(a: Board, b: Board)
    requires Shaped(a.grid) && Shaped(b.grid)
    ensures GridStr(a) == GridStr(b) <==> a.grid == b.grid
  {
    if GridStr(a) == GridStr(b) {
      forall i | 0 <= i < Height ensures a.grid[i] == b.grid[i] {
        forall j | 0 <= j < Width ensures a.grid[i][j] == b.grid[i][j] {
          assert GridStr(a)[Width * i + j] == a.grid[i][j];
        }
      }
    }
  }

  /** Adding a key not yet explored shrinks what is left to explore. */
  lemma Shrinks(keys: set<string>, explored: set<string>, key: string)
    requires key in keys && key !in explored
    ensures |keys - (explored + {key})| < |keys - explored|
  {
    assert keys - (explored + {key}) == (keys - explored) - {key};
  }

  /** s was generated from a state at a position below bound. */
  ghost predicate ChildIn(tree: seq<State>, bound: nat, s: State) {
    && bound <= |tree|
    && s.parent.Some? && s.parent.value < bound
    && ChildOf(tree[s.parent.value], s.parent.value, s)
  }

  /** Every expanded state but the first names an earlier one as parent. */
  ghost predicate ParentsEarlier(tree: seq<State>) {
    forall k :: 0 < k < |tree| ==> ChildIn(tree, k, tree[k])
  }

  /** The expanded states in order: the initial state first, every later
      one generated from an earlier one. */
  ghost predicate Linked(tree: seq<State>, init: State) {
    (|tree| > 0 ==> tree[0] == init) && ParentsEarlier(tree)
  }

  /** A state a search may hold: the initial state, or a child of an
      expanded state. */
  ghost predicate Rooted(tree: seq<State>, init: State, s: State) {
    s == init || ChildIn(tree, |tree|, s)
  }

  /** Some expanded state has grid_str key. */
  ghost predicate Keyed(tree: seq<State>, key: string) {
    exists m :: 0 <= m < |tree| && Shaped(tree[m].board.grid) && GridStr(tree[m].board) == key
  }

  /** Some state waiting in the frontier has piece list ps. */
  ghost predicate Queued(frontier: seq<State>, ps: seq<Piece>) {
    exists s :: s in frontier && s.board.pieces == ps
  }

  /** Some expanded state shows the grid that piece list ps paints. */
  ghost predicate Drawn(tree: seq<State>, ps: seq<Piece>) {
    exists m :: 0 <= m < |tree| && Shows(Board(ps, tree[m].board.grid))
  }

  /** Every legal move from an expanded board with at most two spaces
      leads to a board still waiting in the frontier or already expanded
      under the same grid. */
  ghost predicate Closed(tree: seq<State>, frontier: seq<State>) {
    forall k, i, d ::
      0 <= k < |tree| && AtMostTwoSpaces(tree[k].board) && Legal(tree[k].board, i, d) ==>
        Queued(frontier, MovedPieces(tree[k].board.pieces, i, d)) ||
        Drawn(tree, MovedPieces(tree[k].board.pieces, i, d))
  }

  /** A popped state whose key was explored before is drawn by the
      expanded state holding that key. */
  lemma DrawnByKey(tree: seq<State>, s: State)
    requires forall m :: 0 <= m < |tree| ==> WellFormed(tree[m].board)
    requires WellFormed(s.board)
    requires Keyed(tree, GridStr(s.board))
    ensures Drawn(tree, s.board.pieces)
  {
    var m :| 0 <= m < |tree| && Shaped(tree[m].board.grid) && GridStr(tree[m].board) == GridStr(s.board);
    SameKeySameGrid(tree[m].board, s.board);
    assert Board(s.board.pieces, tree[m].board.grid) == s.board;
  }

  /** Dropping an already explored state from the frontier keeps the
      frontier and the tree closed under legal moves. */
  lemma {:induction false} SkipKeepsClosed(tree: seq<State>, frontier: seq<State>, rest: seq<State>, curr: State)
    requires Closed(tree, frontier)
    requires forall s :: s in frontier ==> s == curr || s in rest
    requires forall m :: 0 <= m < |tree| ==> WellFormed(tree[m].board)
    requires WellFormed(curr.board)
    requires Keyed(tree, GridStr(curr.board))
    ensures Closed(tree, rest)
  {
    DrawnByKey(tree, curr);
    forall k, i, d | 0 <= k < |tree| && AtMostTwoSpaces(tree[k].board) && Legal(tree[k].board, i, d)
      ensures Queued(rest, MovedPieces(tree[k].board.pieces, i, d)) ||
              Drawn(tree, MovedPieces(tree[k].board.pieces, i, d))
    {
      var ps := MovedPieces(tree[k].board.pieces, i, d);
      if Queued(frontier, ps) {
        var s :| s in frontier && s.board.pieces == ps;
        if s != curr {
          assert s in rest;
        }
      }
    }
  }

  /** Expanding curr: it joins the tree and its children, generated with
      every legal move when it has at most two spaces, join the frontier. */
  lemma {:induction false} ExpandKeepsClosed(tree: seq<State>, frontier: seq<State>, rest: seq<State>, curr: State, next: seq<State>)
    requires Closed(tree, frontier)
    requires forall s :: s in frontier ==> s == curr || s in rest
    requires WellFormed(curr.board)
    requires forall s :: s in rest ==> s in next
    requires AtMostTwoSpaces(curr.board) ==> forall i, d :: Legal(curr.board, i, d) ==>
      exists k :: |rest| <= k < |next| && next[k].board.pieces == MovedPieces(curr.board.pieces, i, d)
    ensures Closed(tree + [curr], next)
  {
    var tree2 := tree + [curr];
    assert Shows(Board(curr.board.pieces, tree2[|tree|].board.grid));
    forall k, i, d | 0 <= k < |tree2| && AtMostTwoSpaces(tree2[k].board) && Legal(tree2[k].board, i, d)
      ensures Queued(next, MovedPieces(tree2[k].board.pieces, i, d)) ||
              Drawn(tree2, MovedPieces(tree2[k].board.pieces, i, d))
    {
      var ps := MovedPieces(tree2[k].board.pieces, i, d);
      if k == |tree| {
        var n :| |rest| <= n < |next| && next[n].board.pieces == ps;
        assert next[n] in next;
      } else {
        assert tree2[k] == tree[k];
        if Queued(frontier, ps) {
          var s :| s in frontier && s.board.pieces == ps;
          if s != curr {
            assert s in next;
          }
        } else {
          var m :| 0 <= m < |tree| && Shows(Board(ps, tree[m].board.grid));
          assert tree2[m] == tree[m];
        }
      }
    }
  }

  /** Appending the expanded state curr keeps the tree linked, and every
      state rooted before stays rooted. */
  lemma ExpandKeepsLinked(tree: seq<State>, init: State, curr: State)
    requires Linked(tree, init) && Rooted(tree, init, curr)
    requires |tree| == 0 ==> curr == init
    requires |tree| > 0 ==> curr != init
    ensures Linked(tree + [curr], init)
    ensures forall s :: Rooted(tree, init, s) ==> Rooted(tree + [curr], init, s)
  {
    var tree2 := tree + [curr];
    forall k | 0 < k < |tree2| ensures ChildIn(tree2, k, tree2[k]) {
      if k < |tree| {
        assert ChildIn(tree, k, tree[k]);
        assert tree2[tree[k].parent.value] == tree[tree[k].parent.value];
      } else {
        assert tree2[curr.parent.value] == tree[curr.parent.value];
      }
    }
    forall s | Rooted(tree, init, s) ensures Rooted(tree2, init, s) {
      if s != init {
        assert tree2[s.parent.value] == tree[s.parent.value];
      }
    }
  }

  /** The shape of a search between two iterations: the tree is linked,
      and every state in the frontier is the initial state or a child of an
      expanded one; before the first pop the frontier holds init alone. */
  ghost predicate Grown(init: State, tree: seq<State>, frontier: seq<State>) {
    && WellFormed(init.board)
    && (forall m :: 0 <= m < |tree| ==> WellFormed(tree[m].board))
    && (forall s :: s in frontier ==> WellFormed(s.board))
    && Linked(tree, init)
    && (forall s :: s in frontier ==> Rooted(tree, init, s))
    && (|tree| == 0 ==> frontier == [init])
  }

  /** The pruning of a search: the explored keys are exactly those of the
      expanded states, none of which is a goal or shares its key with
      another. */
  ghost predicate Pruned(tree: seq<State>, explored: set<string>) {
    && explored <= Keys
    && (forall m :: 0 <= m < |tree| ==> Shaped(tree[m].board.grid))
    && (|tree| == 0 ==> explored == {})
    && (forall m :: 0 <= m < |tree| ==> GridStr(tree[m].board) in explored && !IsGoal(tree[m].board))
    && (forall key :: key in explored ==> Keyed(tree, key))
    && (forall p, q :: 0 <= p < q < |tree| ==> GridStr(tree[p].board) != GridStr(tree[q].board))
  }

  /** Starting from a board with at most two spaces, every expanded and
      every waiting board has at most two spaces: moves conserve them. */
  ghost predicate Spaced(init: State, tree: seq<State>, frontier: seq<State>) {
    AtMostTwoSpaces(init.board) ==>
      && (forall m :: 0 <= m < |tree| ==> AtMostTwoSpaces(tree[m].board))
      && (forall s :: s in frontier ==> AtMostTwoSpaces(s.board))
  }

  /** What holds between two iterations of either search. */
  ghost predicate Searching(init: State, tree: seq<State>, frontier: seq<State>, explored: set<string>) {
    Grown(init, tree, frontier) && Pruned(tree, explored) && Closed(tree, frontier) && Spaced(init, tree, frontier)
  }

  /** curr was taken out of frontier, leaving rest. */
  ghost predicate Popped(frontier: seq<State>, curr: State, rest: seq<State>) {
    && curr in frontier
    && |rest| < |frontier|
    && (forall s :: s in rest ==> s in frontier)
    && (forall s :: s in frontier ==> s == curr || s in rest)
  }

  /** A stack pop takes the last state. */
  lemma PopLast(frontier: seq<State>)
    requires |frontier| > 0
    ensures Popped(frontier, frontier[|frontier| - 1], frontier[..|frontier| - 1])
  {
    var curr, rest := frontier[|frontier| - 1], frontier[..|frontier| - 1];
    forall s | s in frontier ensures s == curr || s in rest {
      var j :| 0 <= j < |frontier| && frontier[j] == s;
      if j < |rest| {
        assert rest[j] == s;
      }
    }
  }

  /** Popping a state whose grid was explored before changes nothing else. */
  lemma SkipStep(init: State, tree: seq<State>, frontier: seq<State>, explored: set<string>, curr: State, rest: seq<State>)
    requires Searching(init, tree, frontier, explored) && Popped(frontier, curr, rest)
    requires GridStr(curr.board) in explored
    ensures Searching(init, tree, rest, explored)
  {
    SkipKeepsClosed(tree, frontier, rest, curr);
  }

  /** curr, popped from frontier leaving rest, has a grid not explored yet
      and is not a goal; next is rest followed by the successors of curr,
      which sits at position |tree| once expanded. */
  ghost predicate Expansion(init: State, tree: seq<State>, frontier: seq<State>, explored: set<string>,
                            curr: State, rest: seq<State>, next: seq<State>) {
    && Searching(init, tree, frontier, explored) && Popped(frontier, curr, rest)
    && GridStr(curr.board) !in explored && !IsGoal(curr.board)
    && |next| >= |rest| && next[..|rest|] == rest
    && (forall k :: |rest| <= k < |next| ==> ChildOf(curr, |tree|, next[k]))
    && (AtMostTwoSpaces(curr.board) ==> forall i, d :: Legal(curr.board, i, d) ==>
         exists k :: |rest| <= k < |next| && next[k].board.pieces == MovedPieces(curr.board.pieces, i, d))
  }

  /** Expanding a state keeps all that holds between iterations. */
  lemma ExpandStep(init: State, tree: seq<State>, frontier: seq<State>, explored: set<string>,
                   curr: State, rest: seq<State>, next: seq<State>)
    requires Expansion(init, tree, frontier, explored, curr, rest, next)
    ensures Searching(init, tree + [curr], next, explored + {GridStr(curr.board)})
  {
    assert |tree| > 0 ==> curr != init by {
      if |tree| > 0 {
        assert GridStr(tree[0].board) in explored;
      }
    }
    ExpandGrows(init, tree, frontier, curr, rest, next);
    ExpandPrunes(init, tree, frontier, explored, curr, rest, next);
    ExpandCloses(init, tree, frontier, explored, curr, rest, next);
    ExpandSpaced(init, tree, frontier, explored, curr, rest, next);
  }

  lemma ExpandSpaced(init: State, tree: seq<State>, frontier: seq<State>, explored: set<string>,
                     curr: State, rest: seq<State>, next: seq<State>)
    requires Expansion(init, tree, frontier, explored, curr, rest, next)
    ensures Spaced(init, tree + [curr], next)
  {
    if AtMostTwoSpaces(init.board) {
      var tree2 := tree + [curr];
      assert WellFormed(curr.board) && AtMostTwoSpaces(curr.board);
      forall m | 0 <= m < |tree2| ensures AtMostTwoSpaces(tree2[m].board) {
        if m < |tree| {
          assert tree2[m] == tree[m];
        }
      }
      forall s | s in next ensures AtMostTwoSpaces(s.board) {
        var j :| 0 <= j < |next| && next[j] == s;
        if j < |rest| {
          assert s in rest;
        } else {
          StepKeepsSpaces(curr.board, s.board);
        }
      }
    }
  }

  lemma ExpandGrows(init: State, tree: seq<State>, frontier: seq<State>, curr: State, rest: seq<State>, next: seq<State>)
    requires Grown(init, tree, frontier) && Popped(frontier, curr, rest)
    requires |tree| > 0 ==> curr != init
    requires |next| >= |rest| && next[..|rest|] == rest
    requires forall k :: |rest| <= k < |next| ==> ChildOf(curr, |tree|, next[k])
    ensures Grown(init, tree + [curr], next)
  {
    forall s | s in rest ensures s in next {
      var j :| 0 <= j < |rest| && rest[j] == s;
      assert next[j] == s;
    }
    GrowTree(init, tree, frontier, curr, rest, next);
  }

  lemma ExpandPrunes(init: State, tree: seq<State>, frontier: seq<State>, explored: set<string>,
                     curr: State, rest: seq<State>, next: seq<State>)
    requires Expansion(init, tree, frontier, explored, curr, rest, next)
    ensures Pruned(tree + [curr], explored + {GridStr(curr.board)})
  {
    assert WellFormed(curr.board);
    KeyInKeys(curr.board);
    PruneTree(tree, explored, curr);
  }

  lemma ExpandCloses(init: State, tree: seq<State>, frontier: seq<State>, explored: set<string>,
                     curr: State, rest: seq<State>, next: seq<State>)
    requires Expansion(init, tree, frontier, explored, curr, rest, next)
    ensures Closed(tree + [curr], next)
  {
    forall s | s in rest ensures s in next {
      var j :| 0 <= j < |rest| && rest[j] == s;
      assert next[j] == s;
    }
    assert WellFormed(curr.board);
    ExpandKeepsClosed(tree, frontier, rest, curr, next);
  }

  lemma GrowTree(init: State, tree: seq<State>, frontier: seq<State>, curr: State, rest: seq<State>, next: seq<State>)
    requires Grown(init, tree, frontier) && Popped(frontier, curr, rest)
    requires |tree| > 0 ==> curr != init
    requires |next| >= |rest| && next[..|rest|] == rest
    requires forall s :: s in rest ==> s in next
    requires forall k :: |rest| <= k < |next| ==> ChildOf(curr, |tree|, next[k])
    ensures Grown(init, tree + [curr], next)
  {
    ExpandKeepsLinked(tree, init, curr);
    var tree2 := tree + [curr];
    forall s | s in next ensures WellFormed(s.board) && Rooted(tree2, init, s) {
      var j :| 0 <= j < |next| && next[j] == s;
      if j < |rest| {
        assert s in rest;
      } else {
        assert tree2[|tree|] == curr;
      }
    }
  }

  lemma PruneTree(tree: seq<State>, explored: set<string>, curr: State)
    requires Pruned(tree, explored)
    requires Shaped(curr.board.grid) && GridStr(curr.board) in Keys
    requires GridStr(curr.board) !in explored && !IsGoal(curr.board)
    ensures Pruned(tree + [curr], explored + {GridStr(curr.board)})
  {
    var key := GridStr(curr.board);
    var tree2 := tree + [curr];
    forall m | 0 <= m < |tree2|
      ensures Shaped(tree2[m].board.grid) && GridStr(tree2[m].board) in explored + {key} && !IsGoal(tree2[m].board)
    {
      if m < |tree| {
        assert tree2[m] == tree[m];
      }
    }
    forall p, q | 0 <= p < q < |tree2| ensures GridStr(tree2[p].board) != GridStr(tree2[q].board) {
      assert tree2[p] == tree[p];
      if q < |tree| {
        assert tree2[q] == tree[q];
      }
    }
    forall k | k in explored + {key} ensures Keyed(tree2, k) {
      if k == key {
        assert GridStr(tree2[|tree|].board) == key;
      } else {
        var m :| 0 <= m < |tree| && Shaped(tree[m].board.grid) && GridStr(tree[m].board) == k;
        assert tree2[m] == tree[m];
      }
    }
  }

  /** What a search returns: the goal state it found, if any, and the
      expanded states.  The tree is linked from init; no expanded board is
      a goal and no two share a grid; a found state is a goal reached from
      init; a failed search leaves the expanded grids closed under legal
      moves; and init is returned, with nothing expanded, exactly when it
      is a goal itself. */
  ghost predicate Outcome(init: State, found: Option<State>, tree: seq<State>) {
    && WellFormed(init.board)
    && Linked(tree, init)
    && (forall m :: 0 <= m < |tree| ==> WellFormed(tree[m].board) && !IsGoal(tree[m].board))
    && (forall p, q :: 0 <= p < q < |tree| ==> GridStr(tree[p].board) != GridStr(tree[q].board))
    && (found.Some? ==> Rooted(tree, init, found.value) && WellFormed(found.value.board) && IsGoal(found.value.board))
    && (found.None? ==> |tree| > 0 && Closed(tree, []))
    && (AtMostTwoSpaces(init.board) ==> forall m :: 0 <= m < |tree| ==> AtMostTwoSpaces(tree[m].board))
    && (IsGoal(init.board) <==> found == Some(init) && tree == [])
  }

  /** Before the first pop: the frontier holds init alone. */
  lemma Start(init: State)
    requires WellFormed(init.board)
    ensures Searching(init, [], [init], {})
  {
  }

  /** A popped goal with a fresh grid ends the search successfully. */
  lemma GoalPopped(init: State, tree: seq<State>, frontier: seq<State>, explored: set<string>, curr: State, rest: seq<State>)
    requires Searching(init, tree, frontier, explored) && Popped(frontier, curr, rest)
    requires GridStr(curr.board) !in explored && IsGoal(curr.board)
    ensures Outcome(init, Some(curr), tree)
  {
    if |tree| > 0 {
      assert GridStr(tree[0].board) in explored;
    }
  }

  /** A frontier run dry ends the search in failure. */
  lemma Exhausted(init: State, tree: seq<State>, explored: set<string>)
    requires Searching(init, tree, [], explored)
    ensures Outcome(init, None, tree)
  {
  }

  /** A failed search from a board with at most two spaces, as every
      puzzle has, leaves the expanded grids closed under every legal move:
      each move from an expanded board leads to a grid expanded too. */
  lemma FailureClosed(init: State, tree: seq<State>)
    requires Outcome(init, None, tree) && AtMostTwoSpaces(init.board)
    ensures forall k, i, d :: 0 <= k < |tree| && Legal(tree[k].board, i, d) ==>
              Drawn(tree, MovedPieces(tree[k].board.pieces, i, d))
  {
    forall k, i, d | 0 <= k < |tree| && Legal(tree[k].board, i, d)
      ensures Drawn(tree, MovedPieces(tree[k].board.pieces, i, d))
    {
      assert AtMostTwoSpaces(tree[k].board);
      assert !Queued([], MovedPieces(tree[k].board.pieces, i, d));
    }
  }
}
