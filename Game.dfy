/** A game of Gess: the board, the player to move and the game state, updated in place
    by moves and resignations. */
module Game {
  import opened Coordinates
  import opened Board
  import opened Rules

  class GessGame {
    const board: array2<Cell>
    var player: Color
    var state: GameState

    predicate Shaped() {
      board.Length0 == Size && board.Length1 == Size
    }

    /** The board as a grid value. */
    ghost function Cells(): Grid
      requires Shaped()
      reads board
    {
      seq(Size, i requires 0 <= i < Size reads board =>
        seq(Size, j requires 0 <= j < Size reads board => board[i, j]))
    }

    /** Between calls the board is 20x20 and its border holds no stone. */
    ghost predicate Valid()
      reads this, board
    {
      Shaped() && BorderEmpty(Cells())
    }

    /** A new game: the opening layout, black to move, unfinished. */
    constructor ()
      ensures Valid() && fresh(board)
      ensures Cells() == InitialGrid() && player == Black && state == Unfinished
    {
      board := new Cell[Size, Size](InitialCell);
      player := Black;
      state := Unfinished;
      new;
      forall i, j | 0 <= i < Size && 0 <= j < Size
        ensures Cells()[i][j] == InitialGrid()[i][j]
      {
      }
      GridExt(Cells(), InitialGrid());
      InitialBorderEmpty();
    }

    /** Reads the footprint centred on an interior square. */
    method ReturnPiece(sq: Square) returns (p: Piece)
      requires Shaped() && InBounds(sq)
      ensures p == FootprintAt(Cells(), sq)
    {
      var r, c := sq.row, sq.col;
      p := Piece(board[r - 1, c - 1], board[r - 1, c], board[r - 1, c + 1],
                 board[r, c - 1], board[r, c], board[r, c + 1],
                 board[r + 1, c - 1], board[r + 1, c], board[r + 1, c + 1]);
    }

    /** Empties the footprint centred on an interior square. */
    method RemovePiece(sq: Square)
      requires Shaped() && InBounds(sq)
      modifies board
      ensures Cells() == Cleared(old(Cells()), sq)
    {
      forall i, j | sq.row - 1 <= i <= sq.row + 1 && sq.col - 1 <= j <= sq.col + 1 {
        board[i, j] := Empty;
      }
      GridExt(Cells(), Cleared(old(Cells()), sq));
    }

    /** Writes the pattern p over the footprint centred on an interior square. */
    method AddPiece(p: Piece, sq: Square)
      requires Shaped() && InBounds(sq)
      modifies board
      ensures Cells() == Placed(old(Cells()), p, sq)
    {
      forall i, j | sq.row - 1 <= i <= sq.row + 1 && sq.col - 1 <= j <= sq.col + 1 {
        board[i, j] := p.At(i - sq.row, j - sq.col);
      }
      GridExt(Cells(), Placed(old(Cells()), p, sq));
    }

    /** Empties rows 0 and 19, then columns 0 and 19 row by row. */
    method ClearBorder()
      requires Shaped()
      modifies board
      ensures Cells() == WipeBorder(old(Cells()))
    {
      forall i, j | 0 <= i < Size && (i == 0 || i == Size - 1) && 0 <= j < Size {
        board[i, j] := Empty;
      }
      for i := 0 to Size
        invariant forall r, c :: 0 <= r < Size && 0 <= c < Size ==>
          board[r, c] == if r == 0 || r == Size - 1 || (r < i && (c == 0 || c == Size - 1)) then Empty else old(board[r, c])
      {
        board[i, 0] := Empty;
        board[i, Size - 1] := Empty;
      }
      GridExt(Cells(), WipeBorder(old(Cells())));
    }

    /** Checks the path of a move on the current board: a piece without a centre stone
        may go at most 3 steps, and every footprint strictly between the endpoints must
        be empty. */
    method IsPathClear(from: Square, to: Square, ranging: bool) returns (clear: bool)
      requires Shaped() && InBounds(from) && InBounds(to)
      ensures clear == PathClear(Cells(), from, to, ranging)
    {
      var dir := DirectionOf(from, to);
      if dir.None? {
        return true;
      }
      var d := dir.value;
      var spaces := Distance(from, to, d);
      if !ranging && spaces > 3 {
        return false;
      }
      var x := 1;
      while x < spaces
        invariant 1 <= x && (x <= spaces || spaces < 1)
        invariant forall k :: 1 <= k < x ==> ClearAt(Cells(), Step(from, d, k))
      {
        StepInBounds(from, to, d, x);
        var p := ReturnPiece(Step(from, d, x));
        if p != EmptyPiece {
          return false;
        }
        x := x + 1;
      }
      return true;
    }

    /** Scans every interior centre for a ring of side, counting the rings found. */
    method CheckRings(side: Color) returns (found: bool)
      requires Shaped()
      ensures found == HasRing(Cells(), side)
    {
      ghost var g := Cells();
      var ring := RingOf(side);
      var rings := 0;
      for x := 1 to 19
        invariant rings > 0 <==> RingScanned(g, side, x, 1)
      {
        for y := 1 to 19
          invariant rings > 0 <==> RingScanned(g, side, x, y)
        {
          RingScannedStep(g, side, x, y);
          var piece := ReturnPiece(Square(x, y));
          if piece == ring {
            rings := rings + 1;
          }
        }
        RingScannedRow(g, side, x);
      }
      RingScannedRow(g, side, 1);
      found := rings > 0;
    }

    /** Moves the piece centred on `first` to `second` if the move is legal for the
        player to move, and reports whether it did. A rejected move leaves board, player
        and state as they were; an accepted one lifts the piece, writes it at the
        destination, wipes the border, settles the state by the rings left and hands the
        turn over while the game goes on. */
    method MakeMove(first: string, second: string) returns (ok: bool)
      requires Valid() && Parse(first).Some? && Parse(second).Some?
      modifies this, board
      ensures Valid()
      ensures ok <==> Judge(old(Cells()), old(player), old(state), Parse(first).value, Parse(second).value) == Accept
      ensures ok ==> Cells() == Moved(old(Cells()), Parse(first).value, Parse(second).value)
      ensures ok ==> state == Outcome(Cells())
      ensures ok ==> player == if state == Unfinished then old(player).Opponent() else old(player)
      ensures !ok ==> Cells() == old(Cells()) && player == old(player) && state == old(state)
    {
      var from := Parse(first).value;
      var to := Parse(second).value;
      ghost var g := Cells();
      ParseInjective(first, second);

      if first == second {
        return false;
      }
      if !InBounds(from) {
        return false;
      }
      if !InBounds(to) {
        return false;
      }

      var piece := ReturnPiece(from);
      var ranging := Super in Movements(piece);

      if state != Unfinished {
        return false;
      }
      if !PlayableBy(piece, player) {
        return false;
      }
      var dir := DirectionOf(from, to);
      if dir.None? {
        return false;
      }
      if Toward(dir.value) !in Movements(piece) {
        return false;
      }

      RemovePiece(from);
      var clear := IsPathClear(from, to, ranging);
      JudgePath(g, player, from, to);
      if !clear {
        AddPiece(piece, from);
        RestoreCleared(g, from);
        return false;
      }

      AddPiece(piece, to);
      ClearBorder();
      MovedBorderEmpty(g, from, to);
      SettleState();
      ok := true;
    }

    /** After a move: black wins if white has no ring left, otherwise white wins if black
        has none; while the game goes on the turn passes to the other player. */
    method SettleState()
      requires Shaped() && state == Unfinished
      modifies this
      ensures state == Outcome(Cells())
      ensures player == if state == Unfinished then old(player).Opponent() else old(player)
    {
      var blackRing := CheckRings(Black);
      if !blackRing {
        state := WhiteWon;
      }
      var whiteRing := CheckRings(White);
      if !whiteRing {
        state := BlackWon;
      }
      if state == Unfinished {
        player := player.Opponent();
      }
    }

    /** The player to move concedes: an unfinished game is won by the other side, a
        finished one is left alone. */
    method Resign()
      modifies this
      ensures state == Resigned(old(state), old(player))
      ensures player == old(player)
      ensures old(Valid()) ==> Valid()
    {
      if state == Unfinished {
        if player == Black {
          state := WhiteWon;
        } else {
          state := BlackWon;
        }
      }
    }
  }
}
