/** The rules of a Gess move as pure functions over a grid: direction of travel, the
    arms that allow it, who may move a footprint, path clearance, rings, the verdict on
    a move and the board and game state it leads to. */
module Rules {
  import opened Coordinates
  import opened Board

  datatype Direction = N | NE | E | SE | S | SW | W | NW

  /** What a footprint allows: travel towards a direction, or unlimited range. */
  datatype Movement = Toward(d: Direction) | Super

  datatype GameState = Unfinished | BlackWon | WhiteWon

  /** The centre reached after k steps from sq towards d; north lowers the row index. */
  function Step(sq: Square, d: Direction, k: int): Square {
    match d
    case N => Square(sq.row - k, sq.col)
    case NE => Square(sq.row - k, sq.col + k)
    case E => Square(sq.row, sq.col + k)
    case SE => Square(sq.row + k, sq.col + k)
    case S => Square(sq.row + k, sq.col)
    case SW => Square(sq.row + k, sq.col - k)
    case W => Square(sq.row, sq.col - k)
    case NW => Square(sq.row - k, sq.col - k)
  }

  /** Direction from one centre to another: rows equal gives E or W, columns equal S or N,
      equal row and column deltas SE or NW, opposite deltas SW or NE, anything else None.
      Two equal centres give W. A direction found leads from one centre to the other in
      Distance steps; None means no number of steps in any direction reaches it. */
  function DirectionOf(from: Square, to: Square): (r: Option<Direction>)
    ensures r.Some? ==> Distance(from, to, r.value) >= 0 && Step(from, r.value, Distance(from, to, r.value)) == to
    ensures r.None? ==> forall d, k :: Step(from, d, k) != to
  {
    if from.row == to.row then
      (if to.col > from.col then Some(E) else Some(W))
    else if from.col == to.col then
      (if to.row > from.row then Some(S) else Some(N))
    else if to.row - from.row == to.col - from.col then
      (if to.row - from.row > 0 then Some(SE) else Some(NW))
    else if to.row - from.row == -(to.col - from.col) then
      (if to.row - from.row > 0 then Some(SW) else Some(NE))
    else None
  }

  /** The number of steps from one centre to another along d, measured as `is_path_clear` does
      for each direction: whenever to lies k steps from from towards d, it is k. */
  function Distance(from: Square, to: Square, d: Direction): (r: int)
    ensures forall k :: Step(from, d, k) == to ==> r == k
  {
    match d
    case N => from.row - to.row
    case S => to.row - from.row
    case W => from.col - to.col
    case E => to.col - from.col
    case SE => to.row - from.row
    case NW => from.row - to.row
    case NE => from.row - to.row
    case SW => to.row - from.row
  }

  /** Stepping k >= 1 times towards d is recognised as a move towards d of length k. */
  lemma StepDirection(from: Square, d: Direction, k: int)
    requires k >= 1
    ensures DirectionOf(from, Step(from, d, k)) == Some(d)
    ensures Distance(from, Step(from, d, k), d) == k
  {
  }

  /** Every straight move between distinct centres is a whole number of steps along its
      direction. */
  lemma DirectionStep(from: Square, to: Square)
    requires from != to && DirectionOf(from, to).Some?
    ensures Distance(from, to, DirectionOf(from, to).value) >= 1
    ensures Step(from, DirectionOf(from, to).value, Distance(from, to, DirectionOf(from, to).value)) == to
  {
  }

  /** Every centre on the segment between two interior centres is interior. */
  lemma StepInBounds(from: Square, to: Square, d: Direction, k: int)
    requires InBounds(from) && InBounds(to) && DirectionOf(from, to) == Some(d)
    requires 0 <= k <= Distance(from, to, d)
    ensures InBounds(Step(from, d, k))
  {
  }

  /** The footprint cell that must be occupied for the piece to move towards d. */
  function Arm(p: Piece, d: Direction): (x: Cell)
    ensures x == p.At(Step(Square(0, 0), d, 1).row, Step(Square(0, 0), d, 1).col)
  {
    match d
    case NW => p.nw
    case N => p.n
    case NE => p.ne
    case W => p.w
    case E => p.e
    case SW => p.sw
    case S => p.s
    case SE => p.se
  }

  /** The footprint allows movement m: the arm towards its direction, or for Super the
      centre, is occupied. */
  predicate Allows(p: Piece, m: Movement) {
    match m
    case Toward(d) => Arm(p, d) != Empty
    case Super => p.c != Empty
  }

  /** The order in which `check_movement` tests the footprint's cells. */
  const MovementOrder: seq<Movement> :=
    [Toward(NW), Toward(N), Toward(NE), Toward(W), Toward(E), Toward(SW), Toward(S), Toward(SE), Super]

  /** The movements of ms that p allows, in the order of ms. */
  function AllowedOf(p: Piece, ms: seq<Movement>): (r: seq<Movement>)
    ensures forall m :: m in r <==> m in ms && Allows(p, m)
  {
    if ms == [] then []
    else (if Allows(p, ms[0]) then [ms[0]] else []) + AllowedOf(p, ms[1..])
  }

  /** Every movement appears in `check_movement`'s order. */
  lemma MovementOrderComplete()
    ensures forall m :: m in MovementOrder
  {
    forall m ensures m in MovementOrder {
      var i := match m
        case Toward(NW) => 0 case Toward(N) => 1 case Toward(NE) => 2 case Toward(W) => 3
        case Toward(E) => 4 case Toward(SW) => 5 case Toward(S) => 6 case Toward(SE) => 7
        case Super => 8;
      assert MovementOrder[i] == m;
    }
  }

  /** The list of movements a footprint allows, in the order `check_movement` builds it. */
  function Movements(p: Piece): (r: seq<Movement>)
    ensures forall m :: m in r <==> Allows(p, m)
  {
    MovementOrderComplete();
    AllowedOf(p, MovementOrder)
  }

  /** A single stone of one side in the centre with nothing around it. */
  function LoneStone(side: Color): Piece {
    Piece(Empty, Empty, Empty, Empty, Stone(side), Empty, Empty, Empty, Empty)
  }

  /** The footprint may be moved by side: no opposing stone, not empty, not a lone centre
      stone. */
  predicate PlayableBy(p: Piece, side: Color) {
    !p.Contains(Stone(side.Opponent())) && p != EmptyPiece && p != LoneStone(side)
  }

  /** A footprint is playable exactly when it holds no opposing stone and at least one of
      its eight arms is occupied. */
  lemma PlayableIffArm(p: Piece, side: Color)
    ensures PlayableBy(p, side) <==> !p.Contains(Stone(side.Opponent())) && exists d :: Arm(p, d) != Empty
  {
    if PlayableBy(p, side) {
      if p.nw != Empty { assert Arm(p, NW) != Empty; }
      else if p.n != Empty { assert Arm(p, N) != Empty; }
      else if p.ne != Empty { assert Arm(p, NE) != Empty; }
      else if p.w != Empty { assert Arm(p, W) != Empty; }
      else if p.e != Empty { assert Arm(p, E) != Empty; }
      else if p.sw != Empty { assert Arm(p, SW) != Empty; }
      else if p.s != Empty { assert Arm(p, S) != Empty; }
      else { assert Arm(p, SE) != Empty; }
    }
  }

  /** The footprint centred on sq is interior and holds no stone. */
  predicate ClearAt(g: Grid, sq: Square) {
    InBounds(sq) && FootprintAt(g, sq) == EmptyPiece
  }

  /** Every footprint strictly between the endpoints (steps 1 .. Distance - 1) is clear;
      the destination footprint is not examined. */
  ghost predicate IntermediateClear(g: Grid, from: Square, to: Square, d: Direction) {
    forall k :: 1 <= k < Distance(from, to, d) ==> ClearAt(g, Step(from, d, k))
  }

  /** Path check of a move: a piece without a centre stone goes at most 3 steps, and the
      footprints passed over are clear. */
  ghost predicate PathClear(g: Grid, from: Square, to: Square, ranging: bool) {
    match DirectionOf(from, to)
    case None => true
    case Some(d) => (ranging || Distance(from, to, d) <= 3) && IntermediateClear(g, from, to, d)
  }

  /** The stones of side surrounding an empty centre. */
  function RingOf(side: Color): Piece {
    var x := Stone(side);
    Piece(x, x, x, x, Empty, x, x, x, x)
  }

  ghost predicate RingAt(g: Grid, side: Color, sq: Square) {
    InBounds(sq) && FootprintAt(g, sq) == RingOf(side)
  }

  /** Some interior centre carries a ring of side. */
  ghost predicate HasRing(g: Grid, side: Color) {
    exists sq :: RingAt(g, side, sq)
  }

  /** Some ring of side is centred before (x, y) in the row-by-row scan of the interior. */
  ghost predicate RingScanned(g: Grid, side: Color, x: int, y: int) {
    exists r, c :: 1 <= r <= 18 && 1 <= c <= 18 && (r < x || (r == x && c < y)) && RingAt(g, side, Square(r, c))
  }

  /** Scanning one more centre of a row adds that centre. */
  lemma RingScannedStep(g: Grid, side: Color, x: int, y: int)
    requires 1 <= x <= 18 && 1 <= y <= 18
    ensures RingScanned(g, side, x, y + 1) <==> RingScanned(g, side, x, y) || RingAt(g, side, Square(x, y))
  {
    if RingScanned(g, side, x, y + 1) && !RingAt(g, side, Square(x, y)) {
      var r, c :| 1 <= r <= 18 && 1 <= c <= 18 && (r < x || (r == x && c < y + 1)) && RingAt(g, side, Square(r, c));
      assert r < x || (r == x && c < y);
    }
  }

  /** A finished row is the start of the next one, and the whole scan covers every
      interior centre. */
  lemma RingScannedRow(g: Grid, side: Color, x: int)
    requires 1 <= x <= 18
    ensures RingScanned(g, side, x, 19) <==> RingScanned(g, side, x + 1, 1)
    ensures RingScanned(g, side, 19, 1) <==> HasRing(g, side)
  {
    if HasRing(g, side) {
      var sq :| RingAt(g, side, sq);
      assert RingAt(g, side, Square(sq.row, sq.col));
    }
  }

  datatype Rejection = SameSquare | OffBoard | GameOver | NotPlayable | NotStraight | NoArm | TooFar | PathBlocked

  datatype Verdict = Accept | Reject(why: Rejection)

  /** The verdict on a move by player from one centre to another, the first failing rule
      in the order `make_move` checks them. The path is examined on the grid with the
      moving footprint already lifted off. */
  ghost function Judge(g: Grid, player: Color, state: GameState, from: Square, to: Square): Verdict {
    if from == to then Reject(SameSquare)
    else if !InBounds(from) || !InBounds(to) then Reject(OffBoard)
    else if state != Unfinished then Reject(GameOver)
    else
      var piece := FootprintAt(g, from);
      if !PlayableBy(piece, player) then Reject(NotPlayable)
      else
        match DirectionOf(from, to)
        case None => Reject(NotStraight)
        case Some(d) =>
          if Arm(piece, d) == Empty then Reject(NoArm)
          else if piece.c == Empty && Distance(from, to, d) > 3 then Reject(TooFar)
          else if !IntermediateClear(Cleared(g, from), from, to, d) then Reject(PathBlocked)
          else Accept
  }

  /** A move that slides k >= 1 steps towards d is accepted exactly when the game is on,
      the player may move the footprint, its arm towards d is occupied, it is ranging or
      goes at most 3 steps, and every footprint passed over is clear once the piece is
      lifted. */
  lemma JudgeAcceptsExactly(g: Grid, player: Color, state: GameState, from: Square, d: Direction, k: int)
    requires InBounds(from) && InBounds(Step(from, d, k)) && k >= 1
    ensures Judge(g, player, state, from, Step(from, d, k)) == Accept <==>
      && state == Unfinished
      && PlayableBy(FootprintAt(g, from), player)
      && Arm(FootprintAt(g, from), d) != Empty
      && (FootprintAt(g, from).c != Empty || k <= 3)
      && forall m :: 1 <= m < k ==> ClearAt(Cleared(g, from), Step(from, d, m))
  {
    StepDirection(from, d, k);
    assert from != Step(from, d, k);
  }

  /** Only straight moves can be accepted: the destination of an accepted move is a whole
      number of steps from the starting square towards an occupied arm. */
  lemma AcceptedIsStraight(g: Grid, player: Color, state: GameState, from: Square, to: Square)
    requires Judge(g, player, state, from, to) == Accept
    ensures InBounds(from) && DirectionOf(from, to).Some?
    ensures var d := DirectionOf(from, to).value;
      && Arm(FootprintAt(g, from), d) != Empty
      && Distance(from, to, d) >= 1
      && Step(from, d, Distance(from, to, d)) == to
  {
    DirectionStep(from, to);
  }

  /** The grid after an accepted move: the starting footprint lifted, its pattern written at
      the destination, then the border wiped. */
  function Moved(g: Grid, from: Square, to: Square): Grid
    requires InBounds(from)
  {
    WipeBorder(Placed(Cleared(g, from), FootprintAt(g, from), to))
  }

  /** A move leaves the border empty. */
  lemma MovedBorderEmpty(g: Grid, from: Square, to: Square)
    requires InBounds(from)
    ensures BorderEmpty(Moved(g, from, to))
  {
    WipeBorderCells(Placed(Cleared(g, from), FootprintAt(g, from), to));
  }

  /** Once every check before the path check has passed, the verdict is the path check
      on the grid with the piece lifted. */
  lemma JudgePath(g: Grid, player: Color, from: Square, to: Square)
    requires from != to && InBounds(from) && InBounds(to)
    requires PlayableBy(FootprintAt(g, from), player)
    requires DirectionOf(from, to).Some? && Arm(FootprintAt(g, from), DirectionOf(from, to).value) != Empty
    ensures Judge(g, player, Unfinished, from, to) == Accept <==>
      PathClear(Cleared(g, from), from, to, FootprintAt(g, from).c != Empty)
  {
  }

  /** Cell by cell: the destination footprint carries the starting footprint, starting cells
      outside it are empty, the border is empty and every other cell is kept. */
  lemma MovedCells(g: Grid, from: Square, to: Square)
    requires InBounds(from) && InBounds(to)
    ensures BorderEmpty(Moved(g, from, to))
    ensures forall i, j :: 0 <= i < Size && 0 <= j < Size && !OnBorder(i, j) && InFootprint(to, i, j) ==>
      Moved(g, from, to)[i][j] == g[i - to.row + from.row][j - to.col + from.col]
    ensures forall i, j :: 0 <= i < Size && 0 <= j < Size && !OnBorder(i, j) && InFootprint(from, i, j) && !InFootprint(to, i, j) ==>
      Moved(g, from, to)[i][j] == Empty
    ensures forall i, j :: 0 <= i < Size && 0 <= j < Size && !OnBorder(i, j) && !InFootprint(from, i, j) && !InFootprint(to, i, j) ==>
      Moved(g, from, to)[i][j] == g[i][j]
  {
    var p := FootprintAt(g, from);
    forall i, j | 0 <= i < Size && 0 <= j < Size && !OnBorder(i, j) && InFootprint(to, i, j)
      ensures Moved(g, from, to)[i][j] == g[i - to.row + from.row][j - to.col + from.col]
    {
      assert Moved(g, from, to)[i][j] == p.At(i - to.row, j - to.col);
    }
  }

  /** The game state after a move: black wins when white has no ring (`make_move` checks it
      last, so it prevails), else white wins when black has none. */
  ghost function Outcome(g: Grid): (r: GameState)
    ensures r == Unfinished <==> HasRing(g, Black) && HasRing(g, White)
    ensures r == BlackWon <==> !HasRing(g, White)
  {
    if !HasRing(g, White) then BlackWon
    else if !HasRing(g, Black) then WhiteWon
    else Unfinished
  }

  function WinFor(side: Color): GameState {
    if side == Black then BlackWon else WhiteWon
  }

  /** The game state after player resigns. */
  function Resigned(state: GameState, player: Color): GameState {
    if state == Unfinished then WinFor(player.Opponent()) else state
  }

  /** Resigning an unfinished game awards it to the other side; a finished game is never
      changed, so a second resignation is a no-op. */
  lemma ResignedTerminal(state: GameState, player: Color)
    ensures Resigned(state, player) != Unfinished
    ensures state == Unfinished ==> Resigned(state, player) == WinFor(player.Opponent()) != WinFor(player)
    ensures state != Unfinished ==> Resigned(state, player) == state
    ensures Resigned(Resigned(state, player), player) == Resigned(state, player)
  {
  }

  /** The opening position has one ring for each side: white centred on row 2, column 11,
      and black centred on row 17, column 11; so the game starts unfinished. */
  lemma InitialPosition()
    ensures RingAt(InitialGrid(), White, Square(2, 11)) && RingAt(InitialGrid(), Black, Square(17, 11))
    ensures Outcome(InitialGrid()) == Unfinished
  {
    assert RingAt(InitialGrid(), White, Square(2, 11));
    assert RingAt(InitialGrid(), Black, Square(17, 11));
  }
}
