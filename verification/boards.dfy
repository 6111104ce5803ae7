/**
  The board model of hrd.py (class Board): the 5x4 grid of symbols painted
  from the piece list, its flattened row-major key grid_str, the inverse
  split convert_line_to_grid, and find_spaces.  Python's negative list
  indices count from the end of the list; At and Put model that, and
  positive indices past the end, which raise IndexError, are excluded by
  their preconditions.
 */
module Boards {
  import opened Wrappers
  import opened Pieces

  const Height: int := 5
  const Width: int := 4

  /** The symbols a grid cell can hold: empty, goal, single, the halves of
      a horizontal and of a vertical domino. */
  const Alphabet: string := ".12<>^v"

  type Grid = seq<seq<char>>

  /** A board: its pieces and the grid of symbols painted from them when
      the board is built (Board.grid). */
  datatype Board = Board(pieces: seq<Piece>, grid: Grid)

  predicate InBoard(c: Cell) {
    0 <= c.y < Height && 0 <= c.x < Width
  }

  /** Row-major order of cells, the order in which find_spaces scans. */
  predicate Before(a: Cell, b: Cell) {
    a.y < b.y || (a.y == b.y && a.x < b.x)
  }

  predicate Shaped(g: Grid) {
    |g| == Height && forall i :: 0 <= i < Height ==> |g[i]| == Width
  }

  /** A (row, column) pair Python accepts as indices into a 5x4 grid. */
  predicate Indexable(y: int, x: int) {
    -Height <= y < Height && -Width <= x < Width
  }

  /** Python's reading of index i into a list of length n. */
  function Wrap(i: int, n: int): (k: int)
    requires -n <= i < n
    ensures 0 <= k < n
    ensures 0 <= i ==> k == i
  {
    if i < 0 then i + n else i
  }

  /** grid[y][x] as Python evaluates it. */
  function At(g: Grid, y: int, x: int): char
    requires Shaped(g) && Indexable(y, x)
  {
    g[Wrap(y, Height)][Wrap(x, Width)]
  }

  /** grid[y][x] = ch: one cell changes, every other cell is kept. */
  function Put(g: Grid, y: int, x: int, ch: char): (r: Grid)
    requires Shaped(g) && Indexable(y, x)
    ensures Shaped(r)
    ensures At(r, y, x) == ch
    ensures forall i, j :: 0 <= i < Height && 0 <= j < Width && (i != Wrap(y, Height) || j != Wrap(x, Width)) ==> r[i][j] == g[i][j]
  {
    var i := Wrap(y, Height);
    var j := Wrap(x, Width);
    g[i := g[i][j := ch]]
  }

  /** The grid before any piece is painted: every cell '.'. */
  function EmptyGrid(): (g: Grid)
    ensures Shaped(g)
    ensures forall i, j :: 0 <= i < Height && 0 <= j < Width ==> g[i][j] == '.'
  {
    seq(Height, _ => seq(Width, _ => '.'))
  }

  /** The painter writes only to indices Python accepts. */
  predicate Paintable(p: Piece) {
    -Height <= p.y && p.y + Rows(p.kind) <= Height && -Width <= p.x && p.x + Cols(p.kind) <= Width
  }

  /** The footprint lies on the board. */
  predicate InGrid(p: Piece) {
    0 <= p.y && p.y + Rows(p.kind) <= Height && 0 <= p.x && p.x + Cols(p.kind) <= Width
  }

  /** One iteration of the painting loop of __construct_grid. */
  function Paint(g: Grid, p: Piece): (r: Grid)
    requires Shaped(g) && Paintable(p)
    ensures Shaped(r)
    ensures InGrid(p) ==> forall i, j :: 0 <= i < Height && 0 <= j < Width ==>
      r[i][j] == (if Covers(p, Cell(i, j)) then Symbol(p, Cell(i, j)) else g[i][j])
  {
    match p.kind
    case Goal =>
      Put(Put(Put(Put(g, p.y, p.x, '1'), p.y, p.x + 1, '1'), p.y + 1, p.x, '1'), p.y + 1, p.x + 1, '1')
    case Single =>
      Put(g, p.y, p.x, '2')
    case Horizontal =>
      Put(Put(g, p.y, p.x, '<'), p.y, p.x + 1, '>')
    case Vertical =>
      Put(Put(g, p.y, p.x, '^'), p.y + 1, p.x, 'v')
  }

  predicate AllCells(g: Grid, s: string)
    requires Shaped(g)
  {
    forall i, j :: 0 <= i < Height && 0 <= j < Width ==> g[i][j] in s
  }

  /** __construct_grid: start from '.' everywhere and paint the pieces in
      list order, a later piece overwriting an earlier one. */
  function ConstructGrid(ps: seq<Piece>): (g: Grid)
    requires forall k :: 0 <= k < |ps| ==> Paintable(ps[k])
    ensures Shaped(g)
    ensures AllCells(g, Alphabet)
  {
    if |ps| == 0 then EmptyGrid()
    else
      var g0 := ConstructGrid(ps[..|ps| - 1]);
      var r := Paint(g0, ps[|ps| - 1]);
      assert AllCells(r, Alphabet) by {
        forall i, j | 0 <= i < Height && 0 <= j < Width
          ensures r[i][j] in Alphabet
        {
          var p := ps[|ps| - 1];
          if i != Wrap(p.y, Height) && i != Wrap(p.y + Rows(p.kind) - 1, Height) {
          } else if j != Wrap(p.x, Width) && j != Wrap(p.x + Cols(p.kind) - 1, Width) {
          }
        }
      }
      r
  }

  /** Board.__init__: keep the pieces and paint the grid from them. */
  function NewBoard(ps: seq<Piece>): (b: Board)
    requires forall k :: 0 <= k < |ps| ==> Paintable(ps[k])
    ensures b.pieces == ps && Shaped(b.grid) && AllCells(b.grid, Alphabet)
  {
    Board(ps, ConstructGrid(ps))
  }

  /** Concatenation of the rows, the loop that builds grid_str. */
  function Flatten(g: seq<string>): (s: string)
    ensures (forall i :: 0 <= i < |g| ==> |g[i]| == Width) ==>
      (|s| == Width * |g| && forall i, j :: 0 <= i < |g| && 0 <= j < Width ==> s[Width * i + j] == g[i][j])
  {
    if |g| == 0 then "" else g[0] + Flatten(g[1..])
  }

  /** Board.grid_str, the canonical key used by the explored sets. */
  function GridStr(b: Board): (s: string)
    requires Shaped(b.grid)
    ensures |s| == Height * Width
    ensures forall i, j :: 0 <= i < Height && 0 <= j < Width ==> s[Width * i + j] == b.grid[i][j]
  {
    Flatten(b.grid)
  }

  /** Python's slice s[lo:hi] for non-negative bounds: both ends are
      clamped to the length of s. */
  function Slice(s: string, lo: nat, hi: nat): (r: string)
    ensures lo <= hi <= |s| ==> r == s[lo..hi]
  {
    var a := if lo < |s| then lo else |s|;
    var b := if hi < |s| then hi else |s|;
    if a <= b then s[a..b] else []
  }

  /** Board.convert_line_to_grid: cut a line into five rows of four. */
  function ConvertLineToGrid(line: string): (g: seq<string>)
    ensures |g| == Height
    ensures |line| == Height * Width ==> (Shaped(g) &&
      forall i, j :: 0 <= i < Height && 0 <= j < Width ==> g[i][j] == line[Width * i + j])
  {
    seq(Height, i requires 0 <= i < Height => Slice(line, i * Width, (i + 1) * Width))
  }

  /** Splitting a key back into rows recovers the grid it was flattened from. */
  lemma SplitFlatten(g: Grid)
    requires Shaped(g)
    ensures ConvertLineToGrid(Flatten(g)) == g
  {
    var r := ConvertLineToGrid(Flatten(g));
    assert |r| == |g|;
    forall i | 0 <= i < Height
      ensures r[i] == g[i]
    {
      assert |r[i]| == |g[i]|;
    }
  }

  /** Flattening the rows of a 20-character line gives the line back. */
  lemma FlattenSplit(line: string)
    requires |line| == Height * Width
    ensures Flatten(ConvertLineToGrid(line)) == line
  {
    var g := ConvertLineToGrid(line);
    var s := Flatten(g);
    assert |s| == |line|;
    forall k | 0 <= k < |line|
      ensures s[k] == line[k]
    {
      var i, j := k / Width, k % Width;
      assert k == Width * i + j && 0 <= i < Height && 0 <= j < Width;
      assert s[Width * i + j] == g[i][j];
    }
  }

  /** seg lists, in strict row-major order, exactly the '.' cells of the
      board that come before pos. */
  ghost predicate ScannedTo(g: Grid, seg: seq<Cell>, pos: Cell)
    requires Shaped(g)
  {
    && (forall k :: 0 <= k < |seg| ==> InBoard(seg[k]) && g[seg[k].y][seg[k].x] == '.' && Before(seg[k], pos))
    && (forall k, m :: 0 <= k < m < |seg| ==> Before(seg[k], seg[m]))
    && (forall c :: InBoard(c) && Before(c, pos) && g[c.y][c.x] == '.' ==> c in seg)
  }

  /** When one cell is the only '.' cell, every complete scan lists just it. */
  lemma OnlyDot(g: Grid, a: seq<Cell>, b: seq<Cell>)
    requires Shaped(g)
    requires ScannedTo(g, a, Cell(Height, 0)) && |a| == 1
    requires ScannedTo(g, b, Cell(Height, 0))
    ensures b == a
  {
    assert |b| <= 1 || Before(b[0], b[1]);
    forall k | 0 <= k < |b|
      ensures b[k] == a[0]
    {
      assert b[k] in a;
    }
    assert a[0] in b;
  }

  /** One pass of the nested for loops of find_spaces: append every '.'
      cell, in row-major order, to the cells found so far. */
  method ScanPass(g: Grid, found: seq<Cell>) returns (spaces: seq<Cell>)
    requires Shaped(g)
    ensures |spaces| >= |found| && spaces[..|found|] == found
    ensures ScannedTo(g, spaces[|found|..], Cell(Height, 0))
  {
    spaces := found;
    var start := |found|;
    for i := 0 to Height
      invariant |spaces| >= start && spaces[..start] == found
      invariant ScannedTo(g, spaces[start..], Cell(i, 0))
    {
      for j := 0 to Width
        invariant |spaces| >= start && spaces[..start] == found
        invariant ScannedTo(g, spaces[start..], Cell(i, j))
      {
        ghost var seg := spaces[start..];
        if g[i][j] == '.' {
          spaces := spaces + [Cell(i, j)];
          assert spaces[start..] == seg + [Cell(i, j)];
        }
        assert forall c :: Before(c, Cell(i, j + 1)) ==> Before(c, Cell(i, j)) || c == Cell(i, j);
      }
      assert forall c :: InBoard(c) ==> (Before(c, Cell(i, Width)) <==> Before(c, Cell(i + 1, 0)));
    }
  }

  /** Board.find_spaces.  The outer loop repeats whole passes over the grid
      until two '.' cells have been counted: with two or more the result is
      every '.' cell once, in row-major order; with exactly one it is that
      cell twice; with none the source never returns. */
  method FindSpaces(g: Grid) returns (spaces: seq<Cell>)
    requires Shaped(g)
    requires exists c :: InBoard(c) && g[c.y][c.x] == '.'
    ensures |spaces| >= 2
    ensures forall k :: 0 <= k < |spaces| ==> InBoard(spaces[k]) && g[spaces[k].y][spaces[k].x] == '.'
    ensures forall c :: InBoard(c) && g[c.y][c.x] == '.' ==> c in spaces && !Before(c, spaces[0])
    ensures spaces[0] != spaces[1] ==> forall k, m :: 0 <= k < m < |spaces| ==> Before(spaces[k], spaces[m])
    ensures spaces[0] == spaces[1] ==> |spaces| == 2 && forall c :: InBoard(c) && g[c.y][c.x] == '.' ==> c == spaces[0]
  {
    ghost var c0 :| InBoard(c0) && g[c0.y][c0.x] == '.';
    spaces := [];
    var count := 0;
    while count < 2
      invariant count == |spaces|
      invariant spaces == [] || ScannedTo(g, spaces, Cell(Height, 0)) ||
        (|spaces| == 2 && spaces[0] == spaces[1] && ScannedTo(g, spaces[..1], Cell(Height, 0)))
      decreases 2 - count
    {
      ghost var before := spaces;
      spaces := ScanPass(g, spaces);
      count := |spaces|;
      var pass := spaces[|before|..];
      assert c0 in pass;
      assert spaces == before + pass;
      if |before| > 0 {
        OnlyDot(g, before, pass);
      }
    }
    SpacesOrder(g, spaces);
  }

  lemma SpacesOrder(g: Grid, spaces: seq<Cell>)
    requires Shaped(g) && |spaces| >= 2
    requires ScannedTo(g, spaces, Cell(Height, 0)) ||
        (|spaces| == 2 && spaces[0] == spaces[1] && ScannedTo(g, spaces[..1], Cell(Height, 0)))
    ensures forall k :: 0 <= k < |spaces| ==> InBoard(spaces[k]) && g[spaces[k].y][spaces[k].x] == '.'
    ensures forall c :: InBoard(c) && g[c.y][c.x] == '.' ==> c in spaces && !Before(c, spaces[0])
    ensures spaces[0] != spaces[1] ==> forall k, m :: 0 <= k < m < |spaces| ==> Before(spaces[k], spaces[m])
    ensures spaces[0] == spaces[1] ==> |spaces| == 2 && forall c :: InBoard(c) && g[c.y][c.x] == '.' ==> c == spaces[0]
  {
    if ScannedTo(g, spaces, Cell(Height, 0)) {
      assert Before(spaces[0], spaces[1]);
      forall c | InBoard(c) && g[c.y][c.x] == '.'
        ensures c in spaces && !Before(c, spaces[0])
      {
        var k :| 0 <= k < |spaces| && spaces[k] == c;
        if k > 0 {
          assert Before(spaces[0], spaces[k]);
        }
      }
    } else {
      forall c | InBoard(c) && g[c.y][c.x] == '.'
        ensures c == spaces[0]
      {
        assert c in spaces[..1];
      }
    }
  }

  /** No piece covers cell c. */
  predicate Vacant(ps: seq<Piece>, c: Cell) {
    forall k :: 0 <= k < |ps| ==> !Covers(ps[k], c)
  }

  /** The grid shows the pieces: each cell holds what Shown says. */
  ghost predicate Shows(b: Board) {
    && Shaped(b.grid)
    && forall i, j {:trigger Shown(b.pieces, Cell(i, j))} ::
         0 <= i < Height && 0 <= j < Width ==> b.grid[i][j] == Shown(b.pieces, Cell(i, j))
  }

  /** The board invariants the source relies on: the grid painted from the
      pieces, every piece on the board, no two pieces overlapping, exactly
      one goal piece, and at least one empty cell. */
  ghost predicate WellFormed(b: Board) {
    && Shows(b)
    && (forall k :: 0 <= k < |b.pieces| ==> InGrid(b.pieces[k]))
    && (forall k, m, c :: 0 <= k < m < |b.pieces| && Covers(b.pieces[k], c) ==> !Covers(b.pieces[m], c))
    && (exists k :: 0 <= k < |b.pieces| && b.pieces[k].kind.Goal?)
    && (forall k, m :: 0 <= k < |b.pieces| && 0 <= m < |b.pieces| && b.pieces[k].kind.Goal? && b.pieces[m].kind.Goal? ==> k == m)
    && (exists c :: InBoard(c) && Vacant(b.pieces, c))
  }

  /** The last piece in list order that covers c, if any. */
  function Occupant(ps: seq<Piece>, c: Cell): (r: Option<nat>)
    ensures r.None? <==> Vacant(ps, c)
    ensures r.Some? ==> (r.value < |ps| && Covers(ps[r.value], c) &&
      forall m :: r.value < m < |ps| ==> !Covers(ps[m], c))
  {
    if |ps| == 0 then None
    else if Covers(ps[|ps| - 1], c) then Some(|ps| - 1)
    else Occupant(ps[..|ps| - 1], c)
  }

  /** What a cell shows: the symbol of the last piece painted over it, or
      '.' when no piece covers it. */
  function Shown(ps: seq<Piece>, c: Cell): char {
    match Occupant(ps, c)
    case None => '.'
    case Some(k) => Symbol(ps[k], c)
  }

  /** The painted grid agrees cell by cell with Shown. */
  lemma {:induction false} ConstructGridShows(ps: seq<Piece>)
    requires forall k :: 0 <= k < |ps| ==> InGrid(ps[k])
    ensures forall k :: 0 <= k < |ps| ==> Paintable(ps[k])
    ensures forall i, j :: 0 <= i < Height && 0 <= j < Width ==> ConstructGrid(ps)[i][j] == Shown(ps, Cell(i, j))
  {
    if |ps| > 0 {
      var init := ps[..|ps| - 1];
      ConstructGridShows(init);
      forall i, j | 0 <= i < Height && 0 <= j < Width
        ensures ConstructGrid(ps)[i][j] == Shown(ps, Cell(i, j))
      {
        var c := Cell(i, j);
        if !Covers(ps[|ps| - 1], c) {
          assert Occupant(ps, c) == Occupant(init, c);
          if Occupant(init, c).Some? {
            assert ps[Occupant(init, c).value] == init[Occupant(init, c).value];
          }
        }
      }
    }
  }

  /** A board built from pieces on the board shows them. */
  lemma NewBoardShows(ps: seq<Piece>)
    requires forall k :: 0 <= k < |ps| ==> InGrid(ps[k])
    ensures forall k :: 0 <= k < |ps| ==> Paintable(ps[k])
    ensures Shows(NewBoard(ps))
  {
    ConstructGridShows(ps);
  }

  /** The grid of a well-formed board is the one Board.__init__ paints. */
  lemma WellFormedIsBuilt(b: Board)
    requires WellFormed(b)
    ensures forall k :: 0 <= k < |b.pieces| ==> Paintable(b.pieces[k])
    ensures b == NewBoard(b.pieces)
  {
    NewBoardShows(b.pieces);
    var g := NewBoard(b.pieces).grid;
    forall i | 0 <= i < Height ensures b.grid[i] == g[i] {
      forall j | 0 <= j < Width ensures b.grid[i][j] == g[i][j] {
        assert b.grid[i][j] == Shown(b.pieces, Cell(i, j));
      }
    }
  }

  /** On a well-formed board a cell shows '.' exactly when it is vacant,
      and otherwise the symbol of the piece covering it. */
  lemma GridCell(b: Board, c: Cell)
    requires WellFormed(b) && InBoard(c)
    ensures b.grid[c.y][c.x] == '.' <==> Vacant(b.pieces, c)
    ensures forall k :: 0 <= k < |b.pieces| && Covers(b.pieces[k], c) ==> b.grid[c.y][c.x] == Symbol(b.pieces[k], c)
  {
    assert c == Cell(c.y, c.x);
    ShownCell(b, c);
  }

  /** Without overlaps, the piece painted last over c is the only one. */
  lemma ShownCell(b: Board, c: Cell)
    requires WellFormed(b)
    ensures Shown(b.pieces, c) == '.' <==> Vacant(b.pieces, c)
    ensures forall k :: 0 <= k < |b.pieces| && Covers(b.pieces[k], c) ==> Shown(b.pieces, c) == Symbol(b.pieces[k], c)
  {
    var o := Occupant(b.pieces, c);
    if o.Some? {
      assert Symbol(b.pieces[o.value], c) != '.';
    }
  }

  /** A well-formed board has an empty cell, so find_spaces returns on its grid. */
  lemma WellFormedHasSpace(b: Board)
    requires WellFormed(b)
    ensures exists c :: InBoard(c) && b.grid[c.y][c.x] == '.'
  {
    var c :| InBoard(c) && Vacant(b.pieces, c);
    GridCell(b, c);
  }

}
