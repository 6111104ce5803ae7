/**
  Move legality (hrd.py: is_valid_move).  A move slides one piece one unit
  towards a space; it is legal when every cell the piece newly occupies is
  on the board and empty.  is_valid_move decides this by reading the grid
  cells in front of the piece, and skips the reading when the piece is
  known to move straight into the space next to it.
 */
module Legality {
  import opened Wrappers
  import opened Pieces
  import opened Boards

  /** The cells a move of p in direction d newly occupies: the column left
      or right of the footprint, or the row above or below it. */
  function Entering(p: Piece, d: char): (e: seq<Cell>)
    ensures d in Dirs ==> |e| == (if d == 'l' || d == 'r' then Rows(p.kind) else Cols(p.kind))
  {
    if d == 'l' then seq(Rows(p.kind), i => Cell(p.y + i, p.x - 1))
    else if d == 'r' then seq(Rows(p.kind), i => Cell(p.y + i, p.x + Cols(p.kind)))
    else if d == 'u' then seq(Cols(p.kind), j => Cell(p.y - 1, p.x + j))
    else if d == 'd' then seq(Cols(p.kind), j => Cell(p.y + Rows(p.kind), p.x + j))
    else []
  }

  /** Entering is exactly the moved footprint minus the old one. */
  lemma EnteringCells(p: Piece, d: char, c: Cell)
    requires d in Dirs
    ensures c in Entering(p, d) <==> Covers(Move(p, d), c) && !Covers(p, c)
  {
    var e := Entering(p, d);
    if Covers(Move(p, d), c) && !Covers(p, c) {
      if d == 'l' || d == 'r' {
        assert e[c.y - p.y] == c;
      } else {
        assert e[c.x - p.x] == c;
      }
    }
  }

  /** The cells a move of p in direction d leaves: the column or row of the
      footprint on the side opposite to d.  There are as many as it enters. */
  function Leaving(p: Piece, d: char): (l: seq<Cell>)
    ensures |l| == |Entering(p, d)|
  {
    if d == 'l' then seq(Rows(p.kind), i => Cell(p.y + i, p.x + Cols(p.kind) - 1))
    else if d == 'r' then seq(Rows(p.kind), i => Cell(p.y + i, p.x))
    else if d == 'u' then seq(Cols(p.kind), j => Cell(p.y + Rows(p.kind) - 1, p.x + j))
    else if d == 'd' then seq(Cols(p.kind), j => Cell(p.y, p.x + j))
    else []
  }

  /** Leaving is exactly the old footprint minus the moved one. */
  lemma LeavingCells(p: Piece, d: char, c: Cell)
    requires d in Dirs
    ensures c in Leaving(p, d) <==> Covers(p, c) && !Covers(Move(p, d), c)
  {
    var l := Leaving(p, d);
    if Covers(p, c) && !Covers(Move(p, d), c) {
      if d == 'l' || d == 'r' {
        assert l[c.y - p.y] == c;
      } else {
        assert l[c.x - p.x] == c;
      }
    }
  }

  /** Whether is_valid_move reads the grid for a piece of kind k moving in
      direction d: never for a single, for a domino only across its long
      axis, always for the goal block. */
  predicate Checked(k: Kind, d: char) {
    match k
    case Single => false
    case Goal => d in Dirs
    case Horizontal => d == 'u' || d == 'd'
    case Vertical => d == 'l' || d == 'r'
  }

  /** The grid reads of is_valid_move succeed: the first index pair is one
      Python accepts, and so is the second whenever the short-circuiting
      `and` goes on to read it. */
  predicate Readable(g: Grid, p: Piece, d: char)
    requires Shaped(g)
  {
    Checked(p.kind, d) ==>
      var e := Entering(p, d);
      && Indexable(e[0].y, e[0].x)
      && (At(g, e[0].y, e[0].x) == '.' ==> Indexable(e[1].y, e[1].x))
  }

  /** The entering cells of p all show '.' on grid g. */
  predicate Clear(g: Grid, p: Piece, d: char)
    requires Shaped(g)
  {
    forall k :: 0 <= k < |Entering(p, d)| ==>
      Indexable(Entering(p, d)[k].y, Entering(p, d)[k].x) && At(g, Entering(p, d)[k].y, Entering(p, d)[k].x) == '.'
  }

  /** The body of is_valid_move for an actual piece p, reading grid g. */
  function ValidOn(g: Grid, d: char, p: Piece): (r: bool)
    requires Shaped(g) && Readable(g, p, d)
    ensures p.kind.Single? ==> r
    ensures p.kind.Horizontal? && (d == 'l' || d == 'r') ==> r
    ensures p.kind.Vertical? && (d == 'u' || d == 'd') ==> r
    ensures !p.kind.Single? && d !in Dirs ==> !r
  {
    match p.kind
    case Single => true
    case Goal =>
      if d == 'l' then At(g, p.y, p.x - 1) == '.' && At(g, p.y + 1, p.x - 1) == '.'
      else if d == 'r' then At(g, p.y, p.x + 2) == '.' && At(g, p.y + 1, p.x + 2) == '.'
      else if d == 'u' then At(g, p.y - 1, p.x) == '.' && At(g, p.y - 1, p.x + 1) == '.'
      else if d == 'd' then At(g, p.y + 2, p.x) == '.' && At(g, p.y + 2, p.x + 1) == '.'
      else false
    case Horizontal =>
      if d == 'l' || d == 'r' then true
      else if d == 'u' then At(g, p.y - 1, p.x) == '.' && At(g, p.y - 1, p.x + 1) == '.'
      else if d == 'd' then At(g, p.y + 1, p.x) == '.' && At(g, p.y + 1, p.x + 1) == '.'
      else false
    case Vertical =>
      if d == 'u' || d == 'd' then true
      else if d == 'l' then At(g, p.y, p.x - 1) == '.' && At(g, p.y + 1, p.x - 1) == '.'
      else if d == 'r' then At(g, p.y, p.x + 1) == '.' && At(g, p.y + 1, p.x + 1) == '.'
      else false
  }

  /** is_valid_move: whether piece may slide one unit in direction d.  None
      (two spaces side by side) never moves; a single always moves into the
      space it was found next to, and so does a domino moving along its long
      axis; otherwise both cells in front of the piece must be empty.  A
      direction outside "udlr" reaches the trailing `pass` and yields None,
      which the caller treats as false. */
  function IsValidMove(d: char, piece: Option<Piece>, b: Board): (r: bool)
    requires Shaped(b.grid)
    requires piece.Some? ==> Readable(b.grid, piece.value, d)
    ensures piece.None? ==> !r
    ensures piece.Some? && piece.value.kind.Single? ==> r
    ensures piece.Some? && piece.value.kind.Horizontal? && (d == 'l' || d == 'r') ==> r
    ensures piece.Some? && piece.value.kind.Vertical? && (d == 'u' || d == 'd') ==> r
    ensures piece.Some? && !piece.value.kind.Single? && d !in Dirs ==> !r
    ensures piece.Some? && Checked(piece.value.kind, d) ==> (r <==> Clear(b.grid, piece.value, d))
  {
    match piece
    case None => false
    case Some(p) =>
      ValidOnReadsEntering(b.grid, d, p);
      ValidOn(b.grid, d, p)
  }

  /** Two cells, both readable and both '.'. */
  predicate ClearPair(g: Grid, a: Cell, c: Cell)
    requires Shaped(g)
  {
    Indexable(a.y, a.x) && At(g, a.y, a.x) == '.' && Indexable(c.y, c.x) && At(g, c.y, c.x) == '.'
  }

  lemma ClearOfPair(g: Grid, p: Piece, d: char)
    requires Shaped(g) && Checked(p.kind, d)
    ensures |Entering(p, d)| == 2
    ensures Clear(g, p, d) <==> ClearPair(g, Entering(p, d)[0], Entering(p, d)[1])
  {
    var e := Entering(p, d);
    if ClearPair(g, e[0], e[1]) {
      forall k | 0 <= k < |e| ensures Indexable(e[k].y, e[k].x) && At(g, e[k].y, e[k].x) == '.' {
        assert k == 0 || k == 1;
      }
    }
  }

  /** Where is_valid_move reads the grid, it reads exactly the cells the
      piece would enter, and accepts when both show '.'. */
  lemma ValidOnReadsEntering(g: Grid, d: char, p: Piece)
    requires Shaped(g) && Readable(g, p, d)
    ensures Checked(p.kind, d) ==> (ValidOn(g, d, p) <==> Clear(g, p, d))
  {
    if Checked(p.kind, d) {
      ClearOfPair(g, p, d);
      var e := Entering(p, d);
      match p.kind
      case Goal =>
        if d == 'l' {
          assert e[0] == Cell(p.y, p.x - 1) && e[1] == Cell(p.y + 1, p.x - 1);
        } else if d == 'r' {
          assert e[0] == Cell(p.y, p.x + 2) && e[1] == Cell(p.y + 1, p.x + 2);
        } else if d == 'u' {
          assert e[0] == Cell(p.y - 1, p.x) && e[1] == Cell(p.y - 1, p.x + 1);
        } else {
          assert e[0] == Cell(p.y + 2, p.x) && e[1] == Cell(p.y + 2, p.x + 1);
        }
      case Horizontal =>
        if d == 'u' {
          assert e[0] == Cell(p.y - 1, p.x) && e[1] == Cell(p.y - 1, p.x + 1);
        } else {
          assert e[0] == Cell(p.y + 1, p.x) && e[1] == Cell(p.y + 1, p.x + 1);
        }
      case Vertical =>
        if d == 'l' {
          assert e[0] == Cell(p.y, p.x - 1) && e[1] == Cell(p.y + 1, p.x - 1);
        } else {
          assert e[0] == Cell(p.y, p.x + 1) && e[1] == Cell(p.y + 1, p.x + 1);
        }
    }
  }

  /** The reference notion of a legal move: piece i slides one unit in
      direction d, stays on the board, and every cell it newly covers was
      empty. */
  ghost predicate Legal(b: Board, i: int, d: char) {
    && 0 <= i < |b.pieces|
    && d in Dirs
    && InGrid(Move(b.pieces[i], d))
    && forall c :: Covers(Move(b.pieces[i], d), c) && !Covers(b.pieces[i], c) ==> Vacant(b.pieces, c)
  }

  /** The piece list after piece i moves in direction d: the same pieces
      in the same order, except that entry i is moved one unit. */
  function MovedPieces(ps: seq<Piece>, i: nat, d: char): (r: seq<Piece>)
    requires i < |ps|
    ensures |r| == |ps| && r[i] == Move(ps[i], d)
    ensures forall k :: 0 <= k < |ps| && k != i ==> r[k] == ps[k]
  {
    ps[i := Move(ps[i], d)]
  }

  /** Different moves give different piece lists: a move in one of the
      four directions always shifts the piece, and two directions shift it
      differently. */
  lemma MovesApart(ps: seq<Piece>, i: nat, d: char, j: nat, e: char)
    requires i < |ps| && j < |ps| && d in Dirs && e in Dirs && (i != j || d != e)
    ensures MovedPieces(ps, i, d) != MovedPieces(ps, j, e)
  {
    MoveIsUnitTranslation(ps[i], d);
    MoveIsUnitTranslation(ps[i], e);
    if i == j {
      assert MovedPieces(ps, i, d)[i] != MovedPieces(ps, j, e)[i];
    } else {
      assert MovedPieces(ps, i, d)[i] != ps[i] == MovedPieces(ps, j, e)[i];
    }
  }

}
