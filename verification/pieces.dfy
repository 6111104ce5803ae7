/**
  Pieces of the 4x5 Hua Rong Dao board and their unit moves (hrd.py, class
  Piece).  The source describes a piece by two flags and an orientation
  string; the puzzle reader only ever builds four combinations of them, so a
  piece's shape is a closed variant here.
 */
module Pieces {

  /** Goal is the 2x2 block, Single a 1x1 block, Horizontal a 1x2 domino
      ('h' in the source) and Vertical a 2x1 domino ('v'). */
  datatype Kind = Goal | Single | Horizontal | Vertical

  /** A placed piece.  (x, y) is its top-left anchor: x is the column and y
      the row, as in the source's coord_x and coord_y. */
  datatype Piece = Piece(kind: Kind, x: int, y: int)

  /** A board position, row first, matching the source's grid[y][x]. */
  datatype Cell = Cell(y: int, x: int)

  /** The four move directions the source recognises. */
  const Dirs: string := "udlr"

  /** Number of rows a piece of kind k spans. */
  function Rows(k: Kind): nat {
    match k
    case Goal => 2
    case Single => 1
    case Horizontal => 1
    case Vertical => 2
  }

  /** Number of columns a piece of kind k spans. */
  function Cols(k: Kind): nat {
    match k
    case Goal => 2
    case Single => 1
    case Horizontal => 2
    case Vertical => 1
  }

  /** The footprint of a piece: the cells it occupies. */
  predicate Covers(p: Piece, c: Cell) {
    p.y <= c.y < p.y + Rows(p.kind) && p.x <= c.x < p.x + Cols(p.kind)
  }

  /** The symbol a piece shows on a covered cell of the grid. */
  function Symbol(p: Piece, c: Cell): char {
    match p.kind
    case Goal => '1'
    case Single => '2'
    case Horizontal => if c.x == p.x then '<' else '>'
    case Vertical => if c.y == p.y then '^' else 'v'
  }

  /** Column displacement of a unit move in direction d. */
  function DX(d: char): int {
    if d == 'l' then -1 else if d == 'r' then 1 else 0
  }

  /** Row displacement of a unit move in direction d. */
  function DY(d: char): int {
    if d == 'u' then -1 else if d == 'd' then 1 else 0
  }

  /** Piece.move: translate the anchor one unit; any other direction
      leaves the piece as it is. */
  function Move(p: Piece, d: char): (q: Piece)
    ensures q.kind == p.kind
    ensures d !in Dirs ==> q == p
  {
    if d == 'l' then p.(x := p.x - 1)
    else if d == 'r' then p.(x := p.x + 1)
    else if d == 'u' then p.(y := p.y - 1)
    else if d == 'd' then p.(y := p.y + 1)
    else p
  }

  /** The direction that undoes a move in direction d. */
  function Opposite(d: char): char {
    if d == 'l' then 'r'
    else if d == 'r' then 'l'
    else if d == 'u' then 'd'
    else if d == 'd' then 'u'
    else d
  }

  /** A move is a unit translation: 'l'/'r' change x by -1/+1, 'u'/'d'
      change y by -1/+1, and nothing else changes. */
  lemma MoveIsUnitTranslation(p: Piece, d: char)
    ensures Move(p, d).x == p.x + DX(d) && Move(p, d).y == p.y + DY(d)
    ensures d in Dirs ==> DX(d) * DX(d) + DY(d) * DY(d) == 1
    ensures d !in Dirs ==> DX(d) == 0 && DY(d) == 0
  {
  }

  /** Moving back in the opposite direction restores the piece. */
  lemma MoveUndone(p: Piece, d: char)
    ensures Move(Move(p, d), Opposite(d)) == p
  {
  }

  /** The moved piece covers exactly the old footprint shifted by the move. */
  lemma MoveShiftsFootprint(p: Piece, d: char, c: Cell)
    ensures Covers(Move(p, d), c) <==> Covers(p, Cell(c.y - DY(d), c.x - DX(d)))
  {
  }

}
