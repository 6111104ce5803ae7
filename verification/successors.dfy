/**
  Successor generation (hrd.py: State, generate_successors).  A state wraps
  a board with its depth g, its priority f = g + h and a link to its parent.
  The search keeps every state it creates in an arena (a sequence), so the
  parent link is an index into it rather than an object reference.
 */
module Successors {
  import opened Wrappers
  import opened Pieces
  import opened Boards
  import opened Goals
  import opened Neighbours
  import opened Legality

  /** State: a board, its priority f, its depth, and its parent's position
      in the arena (None for the initial state). */
  datatype State = State(board: Board, f: int, depth: nat, parent: Option<nat>)

  /** One move of the puzzle: b2 is b1 with one piece slid legally. */
  ghost predicate Step(b1: Board, b2: Board) {
    exists i, d :: Legal(b1, i, d) && b2.pieces == MovedPieces(b1.pieces, i, d) && Shows(b2)
  }

  /** A piece found next to space s that would slide into it: it covers the
      neighbouring cell, so the space is among the cells it enters, all of
      which are on the board; a single, or a domino moving along its long
      axis, enters the space alone. */
  lemma CandidateGeometry(p: Piece, s: Cell, d: char)
    requires InGrid(p) && InBoard(s) && d in Dirs
    requires Covers(p, Source(s, d)) && !Covers(p, s)
    ensures s in Entering(p, d)
    ensures forall c :: c in Entering(p, d) ==> InBoard(c)
    ensures InGrid(Move(p, d))
    ensures !Checked(p.kind, d) ==> Entering(p, d) == [s]
  {
    MoveShiftsFootprint(p, d, s);
    EnteringCells(p, d, s);
  }

  /** A vacated cell: covered by p before the move and not after it. */
  function Vacated(p: Piece, d: char): (c: Cell)
    requires d in Dirs
    ensures Covers(p, c) && !Covers(Move(p, d), c)
  {
    if d == 'l' then Cell(p.y, p.x + Cols(p.kind) - 1)
    else if d == 'u' then Cell(p.y + Rows(p.kind) - 1, p.x)
    else Cell(p.y, p.x)
  }

  /** A legal move keeps the board well formed: the pieces stay on the board
      and apart, the goal piece is untouched as a piece, and the cell the
      moving piece leaves becomes empty. */
  lemma MovedWellFormed(b: Board, i: nat, d: char, next: Board)
    requires WellFormed(b) && Legal(b, i, d)
    requires next.pieces == MovedPieces(b.pieces, i, d) && Shows(next)
    ensures WellFormed(next)
  {
    var ps := b.pieces;
    var qs := next.pieces;
    forall k, m, c | 0 <= k < m < |qs| && Covers(qs[k], c)
      ensures !Covers(qs[m], c)
    {
      if k == i && !Covers(ps[i], c) {
        assert Vacant(ps, c);
        assert !Covers(ps[m], c);
      }
    }
    assert forall k :: 0 <= k < |qs| ==> qs[k].kind == ps[k].kind;
    var v := Vacated(ps[i], d);
    assert Vacant(qs, v);
  }

  /** A legal move trades empty cells one for one: the cells it enters
      were empty and are filled, the cells it leaves were filled and are
      emptied, as many of them as it enters, and every other cell keeps
      its state.  So the number of empty cells is conserved. */
  lemma SpacesTrade(b: Board, i: nat, d: char, next: Board)
    requires WellFormed(b) && Legal(b, i, d)
    requires next.pieces == MovedPieces(b.pieces, i, d)
    ensures |Leaving(b.pieces[i], d)| == |Entering(b.pieces[i], d)|
    ensures forall c :: c in Entering(b.pieces[i], d) ==> Vacant(b.pieces, c) && !Vacant(next.pieces, c)
    ensures forall c :: c in Leaving(b.pieces[i], d) ==> !Vacant(b.pieces, c) && Vacant(next.pieces, c)
    ensures forall c :: InBoard(c) ==>
      (Vacant(next.pieces, c) <==>
        (Vacant(b.pieces, c) && c !in Entering(b.pieces[i], d)) || c in Leaving(b.pieces[i], d))
  {
    var p := b.pieces[i];
    var q := Move(p, d);
    forall c ensures && (c in Entering(p, d) ==> Vacant(b.pieces, c) && !Vacant(next.pieces, c))
                     && (c in Leaving(p, d) ==> !Vacant(b.pieces, c) && Vacant(next.pieces, c))
                     && (Vacant(next.pieces, c) <==> (Vacant(b.pieces, c) && c !in Entering(p, d)) || c in Leaving(p, d))
    {
      EnteringCells(p, d, c);
      LeavingCells(p, d, c);
      // Other pieces keep their places, and none of them covers a cell p covers.
      assert Vacant(next.pieces, c) <==> !Covers(q, c) && forall k :: 0 <= k < |b.pieces| && k != i ==> !Covers(b.pieces[k], c);
      assert Vacant(b.pieces, c) <==> !Covers(p, c) && forall k :: 0 <= k < |b.pieces| && k != i ==> !Covers(b.pieces[k], c);
      if Covers(p, c) {
        forall k | 0 <= k < |b.pieces| && k != i ensures !Covers(b.pieces[k], c) {
          if k < i {
            assert !Covers(b.pieces[k], c);
          }
        }
      }
    }
  }

  /** A legal move conserves the empty cells (`SpacesTrade`), so a board
      with at most two spaces keeps at most two. */
  lemma SpacesKept(b: Board, i: nat, d: char, next: Board)
    requires WellFormed(b) && Legal(b, i, d) && AtMostTwoSpaces(b)
    requires next.pieces == MovedPieces(b.pieces, i, d)
    ensures AtMostTwoSpaces(next)
  {
    var p := b.pieces[i];
    var e := Entering(p, d);
    var l := Leaving(p, d);
    forall c | Vacant(next.pieces, c) ensures Vacant(b.pieces, c) || c == l[0] || (|l| == 2 && c == l[1]) {
      if !Vacant(b.pieces, c) {
        var k :| 0 <= k < |b.pieces| && Covers(b.pieces[k], c);
        assert k == i;
        LeavingCells(p, d, c);
      }
    }
    assert e[0] in e;
    EnteringCells(p, d, e[0]);
    if |e| == 1 {
      SpacesTradedOne(b, next, e[0], l[0]);
    } else {
      assert e[1] in e;
      EnteringCells(p, d, e[1]);
      SpacesTradedTwo(b, next, e[0], e[1], l[0], l[1]);
    }
  }

  /** Every board one move away from a board with at most two spaces has
      at most two spaces too. */
  lemma StepKeepsSpaces(b1: Board, b2: Board)
    requires WellFormed(b1) && Step(b1, b2) && AtMostTwoSpaces(b1)
    ensures AtMostTwoSpaces(b2)
  {
    var i, d :| Legal(b1, i, d) && b2.pieces == MovedPieces(b1.pieces, i, d) && Shows(b2);
    SpacesKept(b1, i, d, b2);
  }

  /** The counting step of `SpacesKept` for a piece one cell across: the
      cell entered was a space and no longer is, and every space of next
      is a space of b or the cell left. */
  lemma SpacesTradedOne(b: Board, next: Board, e0: Cell, l0: Cell)
    requires InBoard(e0) && Vacant(b.pieces, e0) && !Vacant(next.pieces, e0)
    requires forall c :: Vacant(next.pieces, c) ==> Vacant(b.pieces, c) || c == l0
    requires AtMostTwoSpaces(b)
    ensures AtMostTwoSpaces(next)
  {
    forall a, c, x | && InBoard(a) && InBoard(c) && InBoard(x)
                     && Vacant(next.pieces, a) && Vacant(next.pieces, c) && Vacant(next.pieces, x)
      ensures a == c || a == x || c == x
    {
      // Two of a, c, x that are not the cell left were spaces of b besides
      // the cell entered, so they coincide.
      SpacesTriple(b, e0, a, c);
      SpacesTriple(b, e0, a, x);
      SpacesTriple(b, e0, c, x);
    }
  }

  /** The counting step of `SpacesKept` for a piece two cells across: the
      two cells entered were the only spaces of b, so every space of next
      is one of the two cells left. */
  lemma SpacesTradedTwo(b: Board, next: Board, e0: Cell, e1: Cell, l0: Cell, l1: Cell)
    requires e0 != e1
    requires InBoard(e0) && Vacant(b.pieces, e0) && !Vacant(next.pieces, e0)
    requires InBoard(e1) && Vacant(b.pieces, e1) && !Vacant(next.pieces, e1)
    requires forall c :: Vacant(next.pieces, c) ==> Vacant(b.pieces, c) || c == l0 || c == l1
    requires AtMostTwoSpaces(b)
    ensures AtMostTwoSpaces(next)
  {
    forall a, c, x | && InBoard(a) && InBoard(c) && InBoard(x)
                     && Vacant(next.pieces, a) && Vacant(next.pieces, c) && Vacant(next.pieces, x)
      ensures a == c || a == x || c == x
    {
      SpacesTriple(b, e0, e1, a);
      SpacesTriple(b, e0, e1, c);
      SpacesTriple(b, e0, e1, x);
    }
  }

  /** One instance of `AtMostTwoSpaces`. */
  lemma SpacesTriple(b: Board, a: Cell, c: Cell, x: Cell)
    requires AtMostTwoSpaces(b)
    ensures (InBoard(a) && InBoard(c) && InBoard(x) && Vacant(b.pieces, a) && Vacant(b.pieces, c) && Vacant(b.pieces, x))
            ==> a == c || a == x || c == x
  {
  }

  /** The heuristic is consistent: one move changes it by at most one. */
  lemma HeuristicConsistent(b1: Board, b2: Board)
    requires WellFormed(b1) && Step(b1, b2)
    ensures WellFormed(b2)
    ensures HasGoal(b1.pieces) && HasGoal(b2.pieces)
    ensures Heuristic(b1) <= Heuristic(b2) + 1 && Heuristic(b2) <= Heuristic(b1) + 1
  {
    var i, d :| Legal(b1, i, d) && b2.pieces == MovedPieces(b1.pieces, i, d) && Shows(b2);
    MovedWellFormed(b1, i, d, b2);
    var k :| 0 <= k < |b1.pieces| && b1.pieces[k].kind.Goal?;
    HeuristicOfGoal(b1, k);
    HeuristicOfGoal(b2, k);
    if k == i {
      MoveDistance(b1.pieces[k], d);
    }
  }

  /** A unit move changes a piece's distance from the exit by at most one. */
  lemma MoveDistance(p: Piece, d: char)
    ensures Distance(p) <= Distance(Move(p, d)) + 1 && Distance(Move(p, d)) <= Distance(p) + 1
  {
    MoveIsUnitTranslation(p, d);
  }

  /** A heuristic path: a sequence of boards, each one move from the last. */
  ghost predicate Path(path: seq<Board>) {
    forall j :: 0 <= j < |path| - 1 ==> Step(path[j], path[j + 1])
  }

  /** The heuristic is admissible: it never exceeds the number of moves of
      any path from the board to a goal board. */
  lemma {:induction false} HeuristicAdmissible(path: seq<Board>)
    requires |path| >= 1 && WellFormed(path[0]) && Path(path)
    requires Shaped(path[|path| - 1].grid) && IsGoal(path[|path| - 1])
    ensures HasGoal(path[0].pieces) && Heuristic(path[0]) <= |path| - 1
  {
    if |path| == 1 {
      GoalTestMatchesHeuristic(path[0]);
    } else {
      HeuristicConsistent(path[0], path[1]);
      assert Path(path[1..]) by {
        forall j | 0 <= j < |path[1..]| - 1 ensures Step(path[1..][j], path[1..][j + 1]) {
          assert path[1..][j] == path[j + 1] && path[1..][j + 1] == path[j + 2];
        }
      }
      HeuristicAdmissible(path[1..]);
    }
  }

  /** The piece of a candidate, as is_valid_move receives it. */
  function PieceOf(h: Option<Hit>): (p: Option<Piece>)
    ensures p.Some? <==> h.Some?
    ensures h.Some? ==> p.value == h.value.piece
  {
    match h
    case None => None
    case Some(hit) => Some(hit.piece)
  }

  /** h is what id_neighbour reports for cell c: nothing for an empty cell,
      and otherwise a piece of the board, with its index, covering c. */
  ghost predicate HitAt(b: Board, c: Cell, h: Option<Hit>) {
    && (h.None? <==> Vacant(b.pieces, c))
    && (h.Some? ==> h.value.index < |b.pieces| && h.value.piece == b.pieces[h.value.index] && Covers(h.value.piece, c))
  }

  /** A candidate find_neighbours can propose: a direction d and what lies
      next to some empty cell s on the side a piece would slide in from. */
  ghost predicate Proposed(b: Board, a: Candidate) {
    exists s :: && InBoard(s) && Vacant(b.pieces, s) && a.dir in Dirs && InBoard(Source(s, a.dir))
                && HitAt(b, Source(s, a.dir), a.hit)
  }

  /** Every entry find_neighbours records for an empty cell is a proposal. */
  lemma EntryProposed(b: Board, s: Cell, a: Candidate)
    requires WellFormed(b) && InBoard(s) && Vacant(b.pieces, s) && a.dir in Dirs && InBoard(Source(s, a.dir))
    requires Resolvable(b, Source(s, a.dir)) && a == Entry(b, s, a.dir)
    ensures Proposed(b, a)
  {
    IdNeighbourFindsOccupant(b, Source(s, a.dir));
    assert HitAt(b, Source(s, a.dir), a.hit);
  }

  /** The entering cells of p are all empty on b. */
  ghost predicate EnteringVacant(b: Board, p: Piece, d: char) {
    forall k :: 0 <= k < |Entering(p, d)| ==> Vacant(b.pieces, Entering(p, d)[k])
  }

  /** With every entering cell on the board, the grid reads succeed and
      show '.' exactly on empty cells. */
  lemma ClearIffVacant(b: Board, p: Piece, d: char)
    requires WellFormed(b) && forall c :: c in Entering(p, d) ==> InBoard(c)
    ensures Shaped(b.grid)
    ensures Readable(b.grid, p, d)
    ensures Clear(b.grid, p, d) <==> EnteringVacant(b, p, d)
  {
    var e := Entering(p, d);
    forall k | 0 <= k < |e|
      ensures Indexable(e[k].y, e[k].x) && (At(b.grid, e[k].y, e[k].x) == '.' <==> Vacant(b.pieces, e[k]))
    {
      assert e[k] in e;
      GridCell(b, e[k]);
    }
  }

  /** A move that stays on the board is legal exactly when it enters only
      empty cells. */
  lemma LegalIffEnteringVacant(b: Board, i: nat, d: char)
    requires i < |b.pieces| && d in Dirs && InGrid(Move(b.pieces[i], d))
    ensures Legal(b, i, d) <==> EnteringVacant(b, b.pieces[i], d)
  {
    var p := b.pieces[i];
    var e := Entering(p, d);
    forall c ensures Covers(Move(p, d), c) && !Covers(p, c) <==> c in e {
      EnteringCells(p, d, c);
    }
    if EnteringVacant(b, p, d) {
      forall c | Covers(Move(p, d), c) && !Covers(p, c) ensures Vacant(b.pieces, c) {
        var k :| 0 <= k < |e| && e[k] == c;
      }
    }
  }

  /** is_valid_move on a piece found next to the empty cell s accepts
      exactly the legal moves. */
  lemma ValidMoveOfPiece(b: Board, i: nat, s: Cell, d: char)
    requires WellFormed(b) && i < |b.pieces| && d in Dirs
    requires InBoard(s) && Vacant(b.pieces, s) && Covers(b.pieces[i], Source(s, d))
    ensures Shaped(b.grid)
    ensures Readable(b.grid, b.pieces[i], d)
    ensures IsValidMove(d, Some(b.pieces[i]), b) <==> Legal(b, i, d)
  {
    var p := b.pieces[i];
    CandidateGeometry(p, s, d);
    ClearIffVacant(b, p, d);
    LegalIffEnteringVacant(b, i, d);
    if !Checked(p.kind, d) {
      assert Entering(p, d)[0] == s;
    }
  }

  /** For the candidates it is given, is_valid_move reads only cells on the
      board, and accepts exactly the legal moves. */
  lemma ValidMoveIsLegal(b: Board, a: Candidate)
    requires WellFormed(b) && Proposed(b, a)
    ensures Shaped(b.grid)
    ensures a.hit.Some? ==> a.hit.value.index < |b.pieces| && a.hit.value.piece == b.pieces[a.hit.value.index]
    ensures a.hit.Some? ==> Readable(b.grid, a.hit.value.piece, a.dir)
    ensures IsValidMove(a.dir, PieceOf(a.hit), b) <==> a.hit.Some? && Legal(b, a.hit.value.index, a.dir)
  {
    var s :| && InBoard(s) && Vacant(b.pieces, s) && a.dir in Dirs && InBoard(Source(s, a.dir))
             && HitAt(b, Source(s, a.dir), a.hit);
    if a.hit.Some? {
      ValidMoveOfPiece(b, a.hit.value.index, s, a.dir);
    }
  }

  /** Removing duplicate candidates, as generate_successors does by passing
      them through a set.  Python's set order is not specified; this keeps
      the first occurrence of each candidate, in list order. */
  function Dedup<T(==,!new)>(xs: seq<T>): (r: seq<T>)
    ensures forall x :: x in r <==> x in xs
    ensures forall i, j :: 0 <= i < j < |r| ==> r[i] != r[j]
  {
    if |xs| == 0 then []
    else
      var rest := Dedup(xs[..|xs| - 1]);
      if xs[|xs| - 1] in rest then rest else rest + [xs[|xs| - 1]]
  }

  /** At most two empty cells, as on every board of the puzzle. */
  ghost predicate AtMostTwoSpaces(b: Board) {
    forall a, c, e ::
      (InBoard(a) && InBoard(c) && InBoard(e) && Vacant(b.pieces, a) && Vacant(b.pieces, c) && Vacant(b.pieces, e))
      ==> a == c || a == e || c == e
  }

  /** A state created as a child of parent, which sits at position index of
      the arena: one move on, one level deeper, with f = g + h. */
  ghost predicate ChildOf(parent: State, index: nat, st: State) {
    && st.parent == Some(index)
    && st.depth == parent.depth + 1
    && Step(parent.board, st.board)
    && WellFormed(st.board)
    && HasGoal(st.board.pieces)
    && st.f == st.depth + Heuristic(st.board)
  }

  /** A legal move enters one of the spaces find_spaces reports, from a
      neighbouring cell the moving piece covers, whenever those two spaces
      are the only empty cells. */
  lemma LegalMoveEntersSpace(b: Board, s1: Cell, s2: Cell, i: nat, d: char) returns (s: Cell)
    requires WellFormed(b) && AtMostTwoSpaces(b) && Legal(b, i, d)
    requires InBoard(s1) && Vacant(b.pieces, s1) && InBoard(s2) && Vacant(b.pieces, s2)
    requires s1 == s2 ==> forall c :: InBoard(c) && Vacant(b.pieces, c) ==> c == s1
    ensures s == s1 || s == s2
    ensures InBoard(Source(s, d)) && Covers(b.pieces[i], Source(s, d)) && !Covers(b.pieces[i], s)
  {
    var p := b.pieces[i];
    var e := Entering(p, d);
    assert |e| >= 1;
    s := e[0];
    assert s in e;
    EnteringCells(p, d, s);
    MoveShiftsFootprint(p, d, s);
    assert InBoard(s) && Vacant(b.pieces, s);
    if s != s1 && s1 != s2 {
      assert s == s2;
    }
  }

  /** find_neighbours, run on the empty cell s, proposes every piece that can
      slide into s, found with its own index. */
  lemma NeighbourProposed(b: Board, s: Cell, n: seq<Candidate>, i: nat, d: char)
    requires WellFormed(b) && NeighboursResolvable(b, s) && AxisNeighbours(b, s, Dirs, n)
    requires InBoard(s) && d in Dirs && i < |b.pieces| && InBoard(Source(s, d)) && Covers(b.pieces[i], Source(s, d))
    ensures Candidate(d, Some(Hit(b.pieces[i], i))) in n
  {
    var k :| 0 <= k < |n| && n[k].dir == d;
    IdNeighbourFindsOccupant(b, Source(s, d));
    var h := n[k].hit.value;
    assert Covers(b.pieces[h.index], Source(s, d));
  }

  /** The two find_neighbours runs of generate_successors, on the empty
      cells s1 and s2, propose only candidates that is_valid_move can judge,
      and, when s1 and s2 are the only empty cells, every legal move. */
  lemma FoundCandidates(b: Board, s1: Cell, s2: Cell, res: seq<Candidate>, found: seq<Candidate>)
    requires WellFormed(b)
    requires InBoard(s1) && Vacant(b.pieces, s1) && InBoard(s2) && Vacant(b.pieces, s2)
    requires s1 == s2 ==> forall c :: InBoard(c) && Vacant(b.pieces, c) ==> c == s1
    requires NeighboursResolvable(b, s1) && NeighboursResolvable(b, s2)
    requires AxisNeighbours(b, s1, Dirs, res)
    requires |found| >= |res| && found[..|res|] == res && AxisNeighbours(b, s2, Dirs, found[|res|..])
    ensures forall k :: 0 <= k < |found| ==> Proposed(b, found[k])
    ensures AtMostTwoSpaces(b) ==> forall i, d :: Legal(b, i, d) ==> Candidate(d, Some(Hit(b.pieces[i], i))) in found
  {
    forall k | 0 <= k < |found| ensures Proposed(b, found[k]) {
      if k < |res| {
        assert found[k] == res[k];
        EntryProposed(b, s1, found[k]);
      } else {
        assert found[k] == found[|res|..][k - |res|];
        EntryProposed(b, s2, found[k]);
      }
    }
    if AtMostTwoSpaces(b) {
      forall i, d | Legal(b, i, d) ensures Candidate(d, Some(Hit(b.pieces[i], i))) in found {
        var s := LegalMoveEntersSpace(b, s1, s2, i, d);
        if s == s1 {
          NeighbourProposed(b, s1, res, i, d);
          assert res == found[..|res|];
        } else {
          NeighbourProposed(b, s2, found[|res|..], i, d);
        }
      }
    }
  }

  /** st is the board of candidate a played on b: its piece moved one unit
      in its direction. */
  ghost predicate Yields(b: Board, a: Candidate, st: State) {
    a.hit.Some? && a.hit.value.index < |b.pieces| && st.board.pieces == MovedPieces(b.pieces, a.hit.value.index, a.dir)
  }

  /** Two different proposals never yield the same board: a proposal's
      piece is determined by its index, so they differ in the piece moved
      or in the direction. */
  lemma CandidatesApart(b: Board, a: Candidate, a2: Candidate, st: State, st2: State)
    requires Proposed(b, a) && Proposed(b, a2) && a != a2
    requires Yields(b, a, st) && Yields(b, a2, st2)
    ensures st.board.pieces != st2.board.pieces
  {
    var s :| && InBoard(s) && Vacant(b.pieces, s) && a.dir in Dirs && InBoard(Source(s, a.dir))
             && HitAt(b, Source(s, a.dir), a.hit);
    var s2 :| && InBoard(s2) && Vacant(b.pieces, s2) && a2.dir in Dirs && InBoard(Source(s2, a2.dir))
              && HitAt(b, Source(s2, a2.dir), a2.hit);
    MovesApart(b.pieces, a.hit.value.index, a.dir, a2.hit.value.index, a2.dir);
  }

  /** The state generate_successors creates for the move of piece h in
      direction d: a copy of the board with that one piece moved, one level
      deeper, with f = g + h. */
  method Child(state: State, index: nat, h: Hit, d: char) returns (c: State)
    requires WellFormed(state.board) && h.index < |state.board.pieces| && h.piece == state.board.pieces[h.index]
    requires Legal(state.board, h.index, d)
    ensures ChildOf(state, index, c) && c.board.pieces == MovedPieces(state.board.pieces, h.index, d)
  {
    var b := state.board;
    var ps := b.pieces[h.index := Move(h.piece, d)];
    NewBoardShows(ps);
    var next := NewBoard(ps);
    MovedWellFormed(b, h.index, d, next);
    GoalTestMatchesHeuristic(next);
    c := State(next, state.depth + 1 + Heuristic(next), state.depth + 1, Some(index));
  }

  /** The test of the loop of generate_successors: the candidates of tries
      that is_valid_move accepts, in order.  Those are exactly the ones
      naming a piece whose move is legal, and, since tries comes out of a
      set, none is accepted twice. */
  method AcceptedMoves(b: Board, tries: seq<Candidate>) returns (acc: seq<Candidate>)
    requires WellFormed(b)
    requires forall k :: 0 <= k < |tries| ==> Proposed(b, tries[k])
    requires forall k, m :: 0 <= k < m < |tries| ==> tries[k] != tries[m]
    ensures forall a :: a in acc <==> a in tries && a.hit.Some? && Legal(b, a.hit.value.index, a.dir)
    ensures forall k, m :: 0 <= k < m < |acc| ==> acc[k] != acc[m]
    decreases |tries|
  {
    if |tries| == 0 {
      return [];
    }
    var rest := AcceptedMoves(b, tries[1..]);
    ValidMoveIsLegal(b, tries[0]);
    if IsValidMove(tries[0].dir, PieceOf(tries[0].hit), b) {
      assert tries[0] !in rest by {
        forall j | 0 <= j < |tries[1..]| ensures tries[1..][j] != tries[0] {
          assert tries[1..][j] == tries[j + 1];
        }
      }
      acc := [tries[0]] + rest;
    } else {
      acc := rest;
    }
  }

  /** The body of the loop of generate_successors for the accepted
      candidates: one child state per candidate, in order, each the board
      that candidate's move produces. */
  method MakeChildren(state: State, index: nat, acc: seq<Candidate>) returns (r: seq<State>)
    requires WellFormed(state.board)
    requires forall k :: 0 <= k < |acc| ==> Proposed(state.board, acc[k])
    requires forall k :: 0 <= k < |acc| ==> acc[k].hit.Some? && Legal(state.board, acc[k].hit.value.index, acc[k].dir)
    ensures |r| == |acc|
    ensures forall st :: st in r ==> ChildOf(state, index, st)
    ensures forall m :: 0 <= m < |r| ==> Yields(state.board, acc[m], r[m])
  {
    forall k | 0 <= k < |acc| ensures acc[k].hit.value.piece == state.board.pieces[acc[k].hit.value.index] {
      ValidMoveIsLegal(state.board, acc[k]);
    }
    r := [];
    for k := 0 to |acc|
      invariant |r| == k
      invariant forall st :: st in r ==> ChildOf(state, index, st)
      invariant forall m :: 0 <= m < k ==> Yields(state.board, acc[m], r[m])
    {
      var c := Child(state, index, acc[k].hit.value, acc[k].dir);
      r := r + [c];
    }
  }

  /** Children of different proposals have different boards. */
  lemma ChildrenApart(b: Board, acc: seq<Candidate>, r: seq<State>)
    requires |r| == |acc|
    requires forall k :: 0 <= k < |acc| ==> Proposed(b, acc[k])
    requires forall k, m :: 0 <= k < m < |acc| ==> acc[k] != acc[m]
    requires forall m :: 0 <= m < |r| ==> Yields(b, acc[m], r[m])
    ensures forall k, m :: 0 <= k < m < |r| ==> r[k].board.pieces != r[m].board.pieces
  {
    forall k, m | 0 <= k < m < |r| ensures r[k].board.pieces != r[m].board.pieces {
      CandidatesApart(b, acc[k], acc[m], r[k], r[m]);
    }
  }

  /** The loop of generate_successors over the candidates tries, appending
      to successors the children, in order, of the candidates
      is_valid_move accepts.  Every one is a child of state, every legal
      move among tries has its child, and no two children share a board. */
  method AddChildren(state: State, index: nat, successors: seq<State>, tries: seq<Candidate>) returns (r: seq<State>)
    requires WellFormed(state.board)
    requires forall k :: 0 <= k < |tries| ==> Proposed(state.board, tries[k])
    requires forall k, m :: 0 <= k < m < |tries| ==> tries[k] != tries[m]
    ensures |r| >= |successors| && r[..|successors|] == successors
    ensures forall k :: |successors| <= k < |r| ==> ChildOf(state, index, r[k])
    ensures forall i, d :: Legal(state.board, i, d) && Candidate(d, Some(Hit(state.board.pieces[i], i))) in tries ==>
      exists k :: |successors| <= k < |r| && r[k].board.pieces == MovedPieces(state.board.pieces, i, d)
    ensures forall k, m :: |successors| <= k < m < |r| ==> r[k].board.pieces != r[m].board.pieces
  {
    var acc := AcceptedMoves(state.board, tries);
    forall k | 0 <= k < |acc| ensures Proposed(state.board, acc[k]) {
      assert acc[k] in tries;
    }
    var added := MakeChildren(state, index, acc);
    ChildrenApart(state.board, acc, added);
    r := successors + added;
    forall k | |successors| <= k < |r| ensures ChildOf(state, index, r[k]) {
      assert r[k] == added[k - |successors|] && added[k - |successors|] in added;
    }
    forall i, d | Legal(state.board, i, d) && Candidate(d, Some(Hit(state.board.pieces[i], i))) in tries
      ensures exists k :: |successors| <= k < |r| && r[k].board.pieces == MovedPieces(state.board.pieces, i, d)
    {
      var a := Candidate(d, Some(Hit(state.board.pieces[i], i)));
      assert a in acc;
      var m :| 0 <= m < |acc| && acc[m] == a;
      assert Yields(state.board, acc[m], added[m]) && r[|successors| + m] == added[m];
    }
    forall k, m | |successors| <= k < m < |r| ensures r[k].board.pieces != r[m].board.pieces {
      assert r[k] == added[k - |successors|] && r[m] == added[m - |successors|];
    }
  }

  /** The candidates generate_successors tries, after duplicates are
      dropped, are ones is_valid_move can judge and, on a board with two
      spaces, include every legal move. */
  lemma TriedCandidates(b: Board, s1: Cell, s2: Cell, tries: seq<Candidate>)
    requires WellFormed(b) && Shaped(b.grid)
    requires InBoard(s1) && Vacant(b.pieces, s1) && InBoard(s2) && Vacant(b.pieces, s2)
    requires s1 == s2 ==> forall c :: InBoard(c) && Vacant(b.pieces, c) ==> c == s1
    requires NeighboursResolvable(b, s1) && NeighboursResolvable(b, s2)
    requires tries == Dedup(FindNeighbours(s2.y, s2.x, FindNeighbours(s1.y, s1.x, [], b), b))
    ensures forall k :: 0 <= k < |tries| ==> Proposed(b, tries[k])
    ensures AtMostTwoSpaces(b) ==> forall i, d :: Legal(b, i, d) ==> Candidate(d, Some(Hit(b.pieces[i], i))) in tries
  {
    var res := FindNeighbours(s1.y, s1.x, [], b);
    var found := FindNeighbours(s2.y, s2.x, res, b);
    assert res == res[0..];
    FoundCandidates(b, s1, s2, res, found);
    forall k | 0 <= k < |tries| ensures Proposed(b, tries[k]) {
      assert tries[k] in found;
    }
  }

  /** The moves generate_successors tries: the pieces next to the first two
      spaces find_spaces reports, each with the direction that would move
      it into its space, duplicates dropped.  Each is a proposed move, and
      when the board has at most two spaces every legal move is among them. */
  method MovesToTry(b: Board) returns (tries: seq<Candidate>)
    requires WellFormed(b)
    ensures forall k :: 0 <= k < |tries| ==> Proposed(b, tries[k])
    ensures forall k, m :: 0 <= k < m < |tries| ==> tries[k] != tries[m]
    ensures AtMostTwoSpaces(b) ==> forall i, d :: Legal(b, i, d) ==> Candidate(d, Some(Hit(b.pieces[i], i))) in tries
  {
    WellFormedHasSpace(b);
    var spaces := FindSpaces(b.grid);
    var s1, s2 := spaces[0], spaces[1];
    GridCell(b, s1);
    GridCell(b, s2);
    assert s1 == s2 ==> forall c :: InBoard(c) && Vacant(b.pieces, c) ==> c == s1 by {
      if s1 == s2 {
        forall c | InBoard(c) && Vacant(b.pieces, c) ensures c == s1 {
          GridCell(b, c);
        }
      }
    }
    WellFormedNeighboursResolvable(b, s1);
    WellFormedNeighboursResolvable(b, s2);
    var res := FindNeighbours(s1.y, s1.x, [], b);
    var found := FindNeighbours(s2.y, s2.x, res, b);
    tries := Dedup(found);
    TriedCandidates(b, s1, s2, tries);
  }

  /** generate_successors: append to successors one child state per move
      to try that is_valid_move accepts.  Every child is one legal move away, and when
      the board has only the usual two spaces every legal move appears. */
  method GenerateSuccessors(state: State, index: nat, successors: seq<State>) returns (r: seq<State>)
    requires WellFormed(state.board)
    ensures |r| >= |successors| && r[..|successors|] == successors
    ensures forall k :: |successors| <= k < |r| ==> ChildOf(state, index, r[k])
    ensures AtMostTwoSpaces(state.board) ==> forall i, d :: Legal(state.board, i, d) ==>
      exists k :: |successors| <= k < |r| && r[k].board.pieces == MovedPieces(state.board.pieces, i, d)
    ensures forall k, m :: |successors| <= k < m < |r| ==> r[k].board.pieces != r[m].board.pieces
  {
    var b := state.board;
    var tries := MovesToTry(b);
    r := AddChildren(state, index, successors, tries);
    if AtMostTwoSpaces(b) {
      forall i, d | Legal(b, i, d)
        ensures exists k :: |successors| <= k < |r| && r[k].board.pieces == MovedPieces(b.pieces, i, d)
      {
        assert Candidate(d, Some(Hit(b.pieces[i], i))) in tries;
      }
    }
  }

}
