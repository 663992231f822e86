/** The board as a value: a 20x20 grid of cells, the 3x3 footprints that make up
    pieces, and the footprint and border operations moves are built from. */
module Board {
  import opened Coordinates

  const Size: int := 20

  datatype Color = Black | White {
    function Opponent(): Color {
      if this == Black then White else Black
    }
  }

  datatype Cell = Empty | Stone(color: Color)

  /** Rows then columns, both indexed 0..19. */
  type Grid = g: seq<seq<Cell>> | |g| == Size && forall i | 0 <= i < |g| :: |g[i]| == Size
    witness seq(Size, _ => seq(Size, _ => Empty))

  predicate OnBorder(i: int, j: int) {
    i == 0 || i == Size - 1 || j == 0 || j == Size - 1
  }

  /** Rows 0 and 19 and columns 0 and 19 hold no stone. */
  predicate BorderEmpty(g: Grid) {
    forall i, j :: 0 <= i < Size && 0 <= j < Size && OnBorder(i, j) ==> g[i][j] == Empty
  }

  /** A 3x3 footprint, named by compass position around the centre c. */
  datatype Piece = Piece(nw: Cell, n: Cell, ne: Cell, w: Cell, c: Cell, e: Cell, sw: Cell, s: Cell, se: Cell) {
    /** The cell dr rows below and dc columns right of the centre. */
    function At(dr: int, dc: int): Cell
      requires -1 <= dr <= 1 && -1 <= dc <= 1
    {
      if dr == -1 then (if dc == -1 then nw else if dc == 0 then n else ne)
      else if dr == 0 then (if dc == -1 then w else if dc == 0 then c else e)
      else (if dc == -1 then sw else if dc == 0 then s else se)
    }

    /** Some cell of the footprint holds x. */
    predicate Contains(x: Cell) {
      nw == x || n == x || ne == x || w == x || c == x || e == x || sw == x || s == x || se == x
    }
  }

  const EmptyPiece := Piece(Empty, Empty, Empty, Empty, Empty, Empty, Empty, Empty, Empty)

  /** Cell (i, j) lies in the footprint centred on sq. */
  predicate InFootprint(sq: Square, i: int, j: int) {
    sq.row - 1 <= i <= sq.row + 1 && sq.col - 1 <= j <= sq.col + 1
  }

  /** The footprint centred on an interior square. */
  function FootprintAt(g: Grid, sq: Square): (p: Piece)
    requires InBounds(sq)
    ensures forall dr, dc :: -1 <= dr <= 1 && -1 <= dc <= 1 ==> p.At(dr, dc) == g[sq.row + dr][sq.col + dc]
  {
    var r, c := sq.row, sq.col;
    Piece(g[r - 1][c - 1], g[r - 1][c], g[r - 1][c + 1],
          g[r][c - 1], g[r][c], g[r][c + 1],
          g[r + 1][c - 1], g[r + 1][c], g[r + 1][c + 1])
  }

  /** The grid with every cell of the footprint centred on sq emptied. */
  function Cleared(g: Grid, sq: Square): Grid {
    seq(Size, i requires 0 <= i < Size =>
      seq(Size, j requires 0 <= j < Size => if InFootprint(sq, i, j) then Empty else g[i][j]))
  }

  /** The grid with the footprint centred on sq overwritten by p. */
  function Placed(g: Grid, p: Piece, sq: Square): Grid {
    seq(Size, i requires 0 <= i < Size =>
      seq(Size, j requires 0 <= j < Size => if InFootprint(sq, i, j) then p.At(i - sq.row, j - sq.col) else g[i][j]))
  }

  /** The grid with its outer rows and columns emptied. */
  function WipeBorder(g: Grid): Grid {
    seq(Size, i requires 0 <= i < Size =>
      seq(Size, j requires 0 <= j < Size => if OnBorder(i, j) then Empty else g[i][j]))
  }

  /** Two grids that agree cell by cell are equal. */
  lemma GridExt(a: Grid, b: Grid)
    requires forall i, j :: 0 <= i < Size && 0 <= j < Size ==> a[i][j] == b[i][j]
    ensures a == b
  {
    forall i | 0 <= i < Size
      ensures a[i] == b[i]
    {
      assert |a[i]| == |b[i]| == Size;
    }
  }

  /** Reading a footprint back after writing it yields what was written. */
  lemma PlacedRead(g: Grid, p: Piece, sq: Square)
    requires InBounds(sq)
    ensures FootprintAt(Placed(g, p, sq), sq) == p
    ensures FootprintAt(Cleared(g, sq), sq) == EmptyPiece
  {
  }

  /** Writing back the footprint that was cleared restores the grid: the rollback of a
      rejected move. */
  lemma RestoreCleared(g: Grid, sq: Square)
    requires InBounds(sq)
    ensures Placed(Cleared(g, sq), FootprintAt(g, sq), sq) == g
  {
    var h := Placed(Cleared(g, sq), FootprintAt(g, sq), sq);
    forall i, j | 0 <= i < Size && 0 <= j < Size
      ensures h[i][j] == g[i][j]
    {
      if InFootprint(sq, i, j) {
        assert h[i][j] == FootprintAt(g, sq).At(i - sq.row, j - sq.col);
      }
    }
    GridExt(h, g);
  }

  /** Wiping the border empties the border and keeps every interior cell. */
  lemma WipeBorderCells(g: Grid)
    ensures BorderEmpty(WipeBorder(g))
    ensures forall i, j :: 0 <= i < Size && 0 <= j < Size && !OnBorder(i, j) ==> WipeBorder(g)[i][j] == g[i][j]
  {
  }

  /** The opening layout: white on rows 1, 2, 3 and 6, black mirrored on rows 18, 17, 16
      and 13. */
  function InitialCell(i: int, j: int): Cell {
    if i == 1 && j in {2, 4, 6, 7, 8, 9, 10, 11, 12, 13, 15, 17} then Stone(White)
    else if i == 2 && j in {1, 2, 3, 5, 7, 8, 9, 10, 12, 14, 16, 17, 18} then Stone(White)
    else if i == 3 && j in {2, 4, 6, 7, 8, 9, 10, 11, 12, 13, 15, 17} then Stone(White)
    else if i == 6 && j in {2, 5, 8, 11, 14, 17} then Stone(White)
    else if i == 13 && j in {2, 5, 8, 11, 14, 17} then Stone(Black)
    else if i == 16 && j in {2, 4, 6, 7, 8, 9, 10, 11, 12, 13, 15, 17} then Stone(Black)
    else if i == 17 && j in {1, 2, 3, 5, 7, 8, 9, 10, 12, 14, 16, 17, 18} then Stone(Black)
    else if i == 18 && j in {2, 4, 6, 7, 8, 9, 10, 11, 12, 13, 15, 17} then Stone(Black)
    else Empty
  }

  function InitialGrid(): Grid {
    seq(Size, i requires 0 <= i < Size => seq(Size, j requires 0 <= j < Size => InitialCell(i, j)))
  }

  /** The opening position has no stone on the border. */
  lemma InitialBorderEmpty()
    ensures BorderEmpty(InitialGrid())
  {
  }

  /** The two sides start as mirror images across the middle of the board. */
  lemma InitialMirror()
    ensures forall i, j {:trigger InitialCell(i, j)} :: 0 <= i < Size && 0 <= j < Size ==>
      (InitialCell(i, j) == Stone(Black) <==> InitialCell(Size - 1 - i, j) == Stone(White))
  {
  }
}
