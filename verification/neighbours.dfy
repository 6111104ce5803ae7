/**
  Resolving the pieces around an empty cell (hrd.py: find_goal_coords,
  id_neighbour, find_neighbours).  Moves are defined on a piece's anchor,
  but the search discovers pieces through arbitrary occupied cells next to
  a space; these functions map such a cell back to its piece.
 */
module Neighbours {
  import opened Wrappers
  import opened Pieces
  import opened Boards
  import opened Goals

  /** find_goal_coords: the anchor of the goal block, given one of its
      cells.  Edge and corner cells can only extend inward; an interior
      cell looks at its left and upper neighbours.  hrd.py:250 repeats the
      test of the first branch (x == 0 and y == 0), so the branch meant for
      the top-right corner never runs; that corner falls to the top-edge
      branch, which finds the goal symbol on its left.  The anchor found
      lies on the board, at most one step up and one step left of (y, x);
      a step is taken only onto a cell showing '1', except from the two
      bottom corners, where the block can only extend upward and inward. */
  function FindGoalCoords(y: int, x: int, b: Board): (r: Cell)
    requires Shaped(b.grid) && InBoard(Cell(y, x))
    ensures InBoard(r) && y - 1 <= r.y <= y && x - 1 <= r.x <= x
    ensures r.x == x - 1 && !(y == 4 && x == 3) ==> b.grid[y][x - 1] == '1'
    ensures r.y == y - 1 && !(y == 4 && (x == 0 || x == 3)) ==> b.grid[y - 1][x] == '1'
  {
    var g := b.grid;
    if x == 0 && y == 0 then Cell(y, x)
    else if x == 0 && y == 4 then Cell(y - 1, x)
    else if x == 3 && y == 4 then Cell(y - 1, x - 1)
    else if x == 0 then Cell(if g[y - 1][x] == '1' then y - 1 else y, x)
    else if y == 0 then Cell(y, if g[y][x - 1] == '1' then x - 1 else x)
    else Cell(if g[y - 1][x] == '1' then y - 1 else y, if g[y][x - 1] == '1' then x - 1 else x)
  }

  /** Every cell of the goal block leads back to the block's anchor. */
  lemma GoalCoordsFindAnchor(b: Board, k: nat, c: Cell)
    requires WellFormed(b) && k < |b.pieces| && b.pieces[k].kind.Goal?
    requires InBoard(c) && Covers(b.pieces[k], c)
    ensures FindGoalCoords(c.y, c.x, b) == Cell(b.pieces[k].y, b.pieces[k].x)
  {
    if c.y > 0 {
      GoalCells(b, k, Cell(c.y - 1, c.x));
    }
    if c.x > 0 {
      GoalCells(b, k, Cell(c.y, c.x - 1));
    }
  }

  /** The first part of id_neighbour: the anchor implied by the symbol on
      cell (y, x), or None for '.' and any other symbol.  An anchor lies
      at most one step up and one step left of the cell. */
  function AnchorOf(y: int, x: int, b: Board): (r: Option<Cell>)
    requires Shaped(b.grid) && InBoard(Cell(y, x))
    ensures r.None? <==> b.grid[y][x] !in PieceSymbols
    ensures r.Some? ==> y - 1 <= r.value.y <= y && x - 1 <= r.value.x <= x
    ensures r.Some? && b.grid[y][x] != '1' ==> (r.value.y == y - 1 <==> b.grid[y][x] == 'v') && (r.value.x == x - 1 <==> b.grid[y][x] == '>')
  {
    var ch := b.grid[y][x];
    if ch == '1' then Some(FindGoalCoords(y, x, b))
    else if ch == '<' || ch == '^' || ch == '2' then Some(Cell(y, x))
    else if ch == '>' then Some(Cell(y, x - 1))
    else if ch == 'v' then Some(Cell(y - 1, x))
    else None
  }

  /** The symbols id_neighbour resolves to a piece. */
  const PieceSymbols: string := "1<^2>v"

  predicate AnchoredAt(p: Piece, a: Cell) {
    p.y == a.y && p.x == a.x
  }

  /** The loop of id_neighbour: the first piece whose anchor is a. */
  function FirstAnchoredAt(ps: seq<Piece>, a: Cell): (r: Option<nat>)
    ensures r.None? <==> forall k :: 0 <= k < |ps| ==> !AnchoredAt(ps[k], a)
    ensures r.Some? ==> (r.value < |ps| && AnchoredAt(ps[r.value], a) &&
      forall k :: 0 <= k < r.value ==> !AnchoredAt(ps[k], a))
  {
    if |ps| == 0 then None
    else if AnchoredAt(ps[0], a) then Some(0)
    else match FirstAnchoredAt(ps[1..], a)
      case None => None
      case Some(k) => Some(k + 1)
  }

  /** id_neighbour can resolve cell c: the source falls off the end of its
      loop, returning a bare None that its caller cannot unpack, when no
      piece has the computed anchor. */
  predicate Resolvable(b: Board, c: Cell) {
    && Shaped(b.grid) && InBoard(c)
    && (AnchorOf(c.y, c.x, b).Some? ==> FirstAnchoredAt(b.pieces, AnchorOf(c.y, c.x, b).value).Some?)
  }

  /** A piece found on the board together with its index in the piece list. */
  datatype Hit = Hit(piece: Piece, index: nat)

  /** id_neighbour: the piece occupying cell (y, x) and its index, or None
      (the source's (None, None)) when the cell holds no piece symbol. */
  function IdNeighbour(y: int, x: int, b: Board): (r: Option<Hit>)
    requires Resolvable(b, Cell(y, x))
    ensures r.Some? ==> r.value.index < |b.pieces| && r.value.piece == b.pieces[r.value.index]
  {
    match AnchorOf(y, x, b)
    case None => None
    case Some(a) =>
      var i := FirstAnchoredAt(b.pieces, a).value;
      Some(Hit(b.pieces[i], i))
  }

  /** On a well-formed board an occupied cell's symbol leads to the anchor
      of the piece covering it. */
  lemma AnchorOfOccupied(b: Board, k: nat, c: Cell)
    requires WellFormed(b) && k < |b.pieces| && InBoard(c) && Covers(b.pieces[k], c)
    ensures AnchorOf(c.y, c.x, b) == Some(Cell(b.pieces[k].y, b.pieces[k].x))
  {
    GridCell(b, c);
    if b.pieces[k].kind.Goal? {
      GoalCoordsFindAnchor(b, k, c);
    }
  }

  /** No two pieces of a well-formed board share an anchor. */
  lemma AnchorsDistinct(b: Board, k: nat, i: nat)
    requires WellFormed(b) && k < |b.pieces| && i < |b.pieces|
    requires AnchoredAt(b.pieces[i], Cell(b.pieces[k].y, b.pieces[k].x))
    ensures i == k
  {
    var a := Cell(b.pieces[k].y, b.pieces[k].x);
    assert Covers(b.pieces[i], a) && Covers(b.pieces[k], a);
  }

  /** On a well-formed board every cell resolves; a vacant cell gives None
      and an occupied one gives the piece covering it. */
  lemma IdNeighbourFindsOccupant(b: Board, c: Cell)
    requires WellFormed(b) && InBoard(c)
    ensures Resolvable(b, c)
    ensures IdNeighbour(c.y, c.x, b).None? <==> Vacant(b.pieces, c)
    ensures IdNeighbour(c.y, c.x, b).Some? ==> Covers(IdNeighbour(c.y, c.x, b).value.piece, c)
  {
    GridCell(b, c);
    if !Vacant(b.pieces, c) {
      var k :| 0 <= k < |b.pieces| && Covers(b.pieces[k], c);
      AnchorOfOccupied(b, k, c);
      var i := FirstAnchoredAt(b.pieces, Cell(b.pieces[k].y, b.pieces[k].x)).value;
      AnchorsDistinct(b, k, i);
    }
  }

  /** The cell whose piece, moved one unit in direction d, lands on s. */
  function Source(s: Cell, d: char): Cell {
    Cell(s.y - DY(d), s.x - DX(d))
  }

  /** A move to try: a direction, and the piece (with its index) that would
      slide that way into a space; hit is None when the neighbour is empty. */
  datatype Candidate = Candidate(dir: char, hit: Option<Hit>)

  /** Every in-board neighbour of s can be resolved. */
  predicate NeighboursResolvable(b: Board, s: Cell) {
    forall d :: d in Dirs && InBoard(Source(s, d)) ==> Resolvable(b, Source(s, d))
  }

  /** On a well-formed board every neighbour of a cell resolves. */
  lemma WellFormedNeighboursResolvable(b: Board, s: Cell)
    requires WellFormed(b)
    ensures NeighboursResolvable(b, s)
  {
    forall d | d in Dirs && InBoard(Source(s, d))
      ensures Resolvable(b, Source(s, d))
    {
      IdNeighbourFindsOccupant(b, Source(s, d));
    }
  }

  /** The candidate find_neighbours records for space s and direction d. */
  function Entry(b: Board, s: Cell, d: char): Candidate
    requires Resolvable(b, Source(s, d))
  {
    Candidate(d, IdNeighbour(Source(s, d).y, Source(s, d).x, b))
  }

  lemma NeighbourResolvable(b: Board, s: Cell, d: char)
    requires NeighboursResolvable(b, s) && d in Dirs && InBoard(Source(s, d))
    ensures Resolvable(b, Source(s, d))
  {
  }

  /** The neighbours of space s that are lined up with it along the axis
      given by dirs ("ud" or "lr"): every such in-board neighbour once, as
      the candidate that would slide into s. */
  ghost predicate AxisNeighbours(b: Board, s: Cell, dirs: string, n: seq<Candidate>)
    requires NeighboursResolvable(b, s) && forall d :: d in dirs ==> d in Dirs
  {
    && (forall k :: 0 <= k < |n| ==>
          n[k].dir in dirs && InBoard(Source(s, n[k].dir)) && n[k] == Entry(b, s, n[k].dir))
    && (forall d :: d in dirs && InBoard(Source(s, d)) ==> exists k :: 0 <= k < |n| && n[k].dir == d)
    && (forall k, m :: 0 <= k < m < |n| ==> n[k].dir != n[m].dir)
  }

  /** The two axes together give every neighbour of s in all four directions. */
  lemma AxisNeighboursJoin(b: Board, s: Cell, v: seq<Candidate>, h: seq<Candidate>)
    requires NeighboursResolvable(b, s)
    requires AxisNeighbours(b, s, "ud", v) && AxisNeighbours(b, s, "lr", h)
    ensures AxisNeighbours(b, s, Dirs, v + h)
  {
    var n := v + h;
    assert forall d :: d in Dirs <==> d in "ud" || d in "lr";
    forall k | 0 <= k < |n|
      ensures n[k].dir in Dirs && InBoard(Source(s, n[k].dir)) && n[k] == Entry(b, s, n[k].dir)
    {
      if k < |v| { assert n[k] == v[k]; } else { assert n[k] == h[k - |v|]; }
    }
    forall d | d in Dirs && InBoard(Source(s, d))
      ensures exists k :: 0 <= k < |n| && n[k].dir == d
    {
      if d in "ud" {
        var k :| 0 <= k < |v| && v[k].dir == d;
        assert n[k] == v[k];
      } else {
        var k :| 0 <= k < |h| && h[k].dir == d;
        assert n[|v| + k] == h[k];
      }
    }
  }

  /** The vertical half of find_neighbours: the piece below slides up and the
      piece above slides down; a space on the top or bottom row has only one
      vertical neighbour. */
  function VerticalNeighbours(y: int, x: int, b: Board): (n: seq<Candidate>)
    requires Shaped(b.grid) && InBoard(Cell(y, x)) && NeighboursResolvable(b, Cell(y, x))
    ensures 1 <= |n| <= 2
    ensures AxisNeighbours(b, Cell(y, x), "ud", n)
  {
    var s := Cell(y, x);
    assert forall d :: d in "ud" ==> d == 'u' || d == 'd';
    if y == 0 then
      NeighbourResolvable(b, s, 'u');
      assert Source(s, 'u') == Cell(1, x);
      var n := [Candidate('u', IdNeighbour(1, x, b))];
      assert n[0].dir == 'u';
      n
    else if y == 4 then
      NeighbourResolvable(b, s, 'd');
      assert Source(s, 'd') == Cell(3, x);
      var n := [Candidate('d', IdNeighbour(3, x, b))];
      assert n[0].dir == 'd';
      n
    else
      NeighbourResolvable(b, s, 'd');
      NeighbourResolvable(b, s, 'u');
      assert Source(s, 'd') == Cell(y - 1, x) && Source(s, 'u') == Cell(y + 1, x);
      var n := [Candidate('d', IdNeighbour(y - 1, x, b)), Candidate('u', IdNeighbour(y + 1, x, b))];
      assert n[0].dir == 'd' && n[1].dir == 'u';
      n
  }

  /** The horizontal half of find_neighbours. */
  function HorizontalNeighbours(y: int, x: int, b: Board): (n: seq<Candidate>)
    requires Shaped(b.grid) && InBoard(Cell(y, x)) && NeighboursResolvable(b, Cell(y, x))
    ensures 1 <= |n| <= 2
    ensures AxisNeighbours(b, Cell(y, x), "lr", n)
  {
    var s := Cell(y, x);
    assert forall d :: d in "lr" ==> d == 'l' || d == 'r';
    if x == 0 then
      NeighbourResolvable(b, s, 'l');
      assert Source(s, 'l') == Cell(y, 1);
      var n := [Candidate('l', IdNeighbour(y, 1, b))];
      assert n[0].dir == 'l';
      n
    else if x == 3 then
      NeighbourResolvable(b, s, 'r');
      assert Source(s, 'r') == Cell(y, 2);
      var n := [Candidate('r', IdNeighbour(y, 2, b))];
      assert n[0].dir == 'r';
      n
    else
      NeighbourResolvable(b, s, 'r');
      NeighbourResolvable(b, s, 'l');
      assert Source(s, 'r') == Cell(y, x - 1) && Source(s, 'l') == Cell(y, x + 1);
      var n := [Candidate('r', IdNeighbour(y, x - 1, b)), Candidate('l', IdNeighbour(y, x + 1, b))];
      assert n[0].dir == 'r' && n[1].dir == 'l';
      n
  }

  /** find_neighbours: append to res one candidate per in-board neighbour of
      the space (y, x), directed from the neighbour towards the space. */
  function FindNeighbours(y: int, x: int, res: seq<Candidate>, b: Board): (r: seq<Candidate>)
    requires Shaped(b.grid) && InBoard(Cell(y, x)) && NeighboursResolvable(b, Cell(y, x))
    ensures |r| >= |res| && r[..|res|] == res
    ensures 2 <= |r| - |res| <= 4
    ensures AxisNeighbours(b, Cell(y, x), Dirs, r[|res|..])
  {
    var v := VerticalNeighbours(y, x, b);
    var h := HorizontalNeighbours(y, x, b);
    AxisNeighboursJoin(b, Cell(y, x), v, h);
    var n := v + h;
    assert n == (res + n)[|res|..];
    res + n
  }

}
