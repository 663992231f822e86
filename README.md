# Gess rule engine in Dafny

This project models `GessGame`, the rule engine of Gess. Gess is played on a 20x20 grid.
A piece is any 3x3 footprint of stones. A move lifts the footprint centred on one square
and sets it down centred on another.

The model has four modules:

- `Coordinates` turns an algebraic square such as `o18` into a grid position.
  Column `a`..`t` becomes 0..19 and row number n becomes row index 20 - n.
  `InBounds` accepts a position as a piece centre when both indices are in 1..18.
- `Board` holds the cells (`Empty` or a `Stone` of `Black` or `White`) and the grid as
  a value. It also holds the 3x3 `Piece`, reading, clearing and writing a footprint,
  wiping the border, and the opening layout.
- `Rules` states each rule of a move as a pure function:
  - the compass direction between two centres (`DirectionOf`) and the steps along it;
  - the arms a footprint may travel by (`Movements`);
  - who may move a footprint (`PlayableBy`);
  - the path check, which runs on the grid with the moving footprint already lifted;
  - rings;
  - the verdict on a move (`Judge`), which reports the first failing rule in the
    order `make_move` checks them;
  - the grid after a move (`Moved`), the game state it leads to (`Outcome`) and
    resignation (`Resigned`).
- `Game` is the class `GessGame`. It holds the board as an `array2<Cell>` plus the
  `player` and `state` fields, and its methods update them in place as the Python class
  does:
  - `MakeMove` lifts the piece and checks the path. If the path is blocked it puts the
    piece back. Otherwise it writes the piece at the destination, wipes the border, scans
    for rings and hands over the turn.
  - Each method is proved against the `Rules` functions, and the class invariant
    `Valid()` (empty border) holds after the constructor and after every `MakeMove` and
    `Resign`. `RemovePiece`, `AddPiece` and `ClearBorder` are the steps of a move and do not
    keep it on their own: `AddPiece` may write a stone on the border, which the wipe then
    removes.

`is_black_piece` and `is_white_piece` are mirror images of each other. They are modelled
by one predicate, `PlayableBy(piece, side)`. Likewise `check_black_rings` and
`check_white_rings` are modelled by one method, `CheckRings(side)`.

Three behaviours of the code that a reader might not expect, all kept by the model:

- After a move, `make_move` sets `BLACK_WON` whenever white has no ring left, even on
  white's own move, because that check runs after the black one (GessGame.py:184-187).
  Otherwise it sets `WHITE_WON` when black has no ring (`Outcome`).
- `convert_string` indexes two dictionaries, so malformed coordinate text raises
  `KeyError` or `UnboundLocalError` rather than returning a value (GessGame.py:211-220).
  The model requires both strings of a move to parse.
- The same-spot check compares the two input texts, not the positions they name
  (GessGame.py:118). `ParseInjective` shows that for strings that parse, this is the same
  as comparing positions.

## Model

| member | source | states |
|---|---|---|
| `Coordinates.Parse` | GessGame.py:196-220 | a square is returned only for a 2- or 3-character string (letter, then row number 1..20), and it lies on the 20x20 grid |
| `Coordinates.ParseFormat` | GessGame.py:203-210 | every grid position has an algebraic name that parses back to it: the two dictionaries cover all of 0..19 |
| `Coordinates.FormatParse` | GessGame.py:211-220 | every string that parses is exactly the name of the position it parses to |
| `Coordinates.ParseInjective` | GessGame.py:114-120 | two parsable strings name the same position iff they are equal, so the same-spot check on the texts is a check on the positions |
| `Coordinates.ParsedInBounds` | GessGame.py:222-230 | a parsed square passes the boundary check iff its letter is b..s and its row number is 2..19 |
| `Board.FootprintAt` | GessGame.py:232-244 | cell (dr, dc) of the returned piece is board cell (row + dr, col + dc) for every offset in -1..1 |
| `Board.PlacedRead` | GessGame.py:295-324 | reading a footprint after writing a piece there returns that piece; after clearing it returns the empty piece |
| `Board.RestoreCleared` | GessGame.py:166-172 | writing the lifted footprint back at its own centre restores the board exactly: the rollback of a blocked move |
| `Board.WipeBorderCells` | GessGame.py:177-181 | after the wipe rows and columns 0 and 19 are empty and every interior cell is kept |
| `Board.InitialBorderEmpty` | GessGame.py:31-53 | the opening layout has no stone on the border |
| `Board.InitialMirror` | GessGame.py:31-53 | a cell holds a black stone at the start iff the cell mirrored across the middle row holds a white one |
| `Rules.InitialPosition` | GessGame.py:31-53 | the opening layout has a white ring centred on row 2, column 11 and a black ring centred on row 17, column 11, so the game starts unfinished |
| `Rules.StepDirection` | GessGame.py:353-389 | k >= 1 steps towards any direction d are classified as d, with `is_path_clear`'s `spaces` count equal to k |
| `Rules.DirectionStep` | GessGame.py:353-389 | for distinct centres, a classified direction d with its step count n >= 1 leads from the starting square to exactly the destination in n steps |
| `Rules.StepInBounds` | GessGame.py:404-471 | every centre on the segment between two interior centres is interior, so each intermediate footprint can be read |
| `Rules.Arm` | GessGame.py:326-348 | the arm for direction d is the footprint cell one step from the centre towards d (N is the top middle cell) |
| `Rules.Movements` | GessGame.py:326-351 | the list holds direction d iff its arm is occupied, and holds Super iff the centre is occupied |
| `Rules.PlayableIffArm` | GessGame.py:257-293 | a footprint is playable by a side iff it holds no opposing stone and at least one of its eight arms is occupied (a lone centre stone or an empty footprint never moves) |
| `Rules.JudgeAcceptsExactly` | GessGame.py:118-172 | a move k >= 1 steps towards d is accepted iff: the game is unfinished; the player may move the piece; its arm towards d is occupied; it has a centre stone or k <= 3; every footprint strictly between the endpoints is empty once the piece is lifted |
| `Rules.AcceptedIsStraight` | GessGame.py:156-163 | an accepted move goes a whole number of steps >= 1 along a direction whose arm is occupied |
| `Rules.JudgePath` | GessGame.py:165-172 | once ownership, direction and arm checks pass, the verdict is the path check on the board with the piece lifted, ranging iff the centre is occupied |
| `Rules.MovedCells` | GessGame.py:165-181 | after a move: the destination footprint holds the starting footprint cell for cell; starting cells outside it are empty; the border is empty; every other cell is unchanged |
| `Rules.MovedBorderEmpty` | GessGame.py:177-181 | a move leaves the border empty |
| `Rules.Outcome` | GessGame.py:183-187 | the game stays unfinished iff both sides still have a ring; black wins iff white has no ring |
| `Rules.RingScannedRow` | GessGame.py:481-488 | the row-by-row scan over centres 1..18 x 1..18 finds a ring iff the board has one |
| `Rules.ResignedTerminal` | GessGame.py:87-100 | resigning an unfinished game awards it to the other side; a finished game is left as it is, so a second resignation changes nothing |
| `Coordinates.InBounds` | GessGame.py:222-230 | a centre is inside the boundaries when both indices lie in 1..18; `ParsedInBounds` states which strings these are |
| `Board.Cleared` | GessGame.py:295-305 | the grid with the footprint around a centre emptied; `PlacedRead` and `RestoreCleared` state its properties |
| `Board.Placed` | GessGame.py:307-324 | the grid with the footprint around a centre overwritten by a piece; `PlacedRead` and `RestoreCleared` state its properties |
| `Board.WipeBorder` | GessGame.py:177-181 | the grid with rows and columns 0 and 19 emptied; `WipeBorderCells` states its properties |
| `Board.InitialGrid` | GessGame.py:31-53 | the opening layout; `InitialBorderEmpty`, `InitialMirror` and `Rules.InitialPosition` state its properties |
| `Rules.DirectionOf` | GessGame.py:353-389 | a direction it returns leads from the first centre to the second in `Distance` steps, and None means no number of steps in any direction reaches it; see also `StepDirection` and `DirectionStep` |
| `Rules.Distance` | GessGame.py:399-466 | whenever the destination lies k steps from the source towards d, the count for d is k |
| `Rules.PlayableBy` | GessGame.py:257-293 | the ownership rule of `is_black_piece`/`is_white_piece`; `PlayableIffArm` states what it means |
| `Rules.PathClear` | GessGame.py:391-472 | the path check; `IsPathClear` computes it by its loop and `JudgePath` places it in the verdict |
| `Rules.HasRing` | GessGame.py:474-504 | some interior centre carries a ring of the side; `CheckRings` and `RingScannedRow` tie the scans to it |
| `Rules.Judge` | GessGame.py:118-172 | the verdict of `make_move`'s checks, reporting the first that fails; `JudgeAcceptsExactly`, `AcceptedIsStraight` and `JudgePath` state when it accepts |
| `Rules.Moved` | GessGame.py:165-181 | the board after an accepted move; `MovedCells` and `MovedBorderEmpty` state it cell by cell |
| `Rules.Resigned` | GessGame.py:87-100 | the state after the player to move resigns; `ResignedTerminal` states its properties |
| `Game.GessGame.constructor` | GessGame.py:21-53 | a new game has the opening layout, black to move, the state unfinished and an empty border |
| `Game.GessGame.ReturnPiece` | GessGame.py:232-244 | returns the footprint of the current board centred on an interior square |
| `Game.GessGame.RemovePiece` | GessGame.py:295-305 | the board afterwards is the old board with that footprint emptied |
| `Game.GessGame.AddPiece` | GessGame.py:307-324 | the board afterwards is the old board with that footprint overwritten by the piece |
| `Game.GessGame.ClearBorder` | GessGame.py:177-181 | the board afterwards is the old board with its border wiped |
| `Game.GessGame.IsPathClear` | GessGame.py:391-472 | the loop answers the path check on the current board: a piece without a centre stone goes at most 3 steps, and the footprints at steps 1 .. n-1 are empty (the destination is not examined) |
| `Game.GessGame.CheckRings` | GessGame.py:474-504 | the nested scan with its ring counter reports true iff some interior centre carries a ring of the side |
| `Game.GessGame.SettleState` | GessGame.py:183-193 | the state becomes the outcome of the rings on the board, and the player flips only while the game stays unfinished |
| `Game.GessGame.MakeMove` | GessGame.py:102-194 | returns true iff the verdict accepts the move; if so the board becomes the moved grid, the state the outcome and the turn passes while unfinished; if not, board, player and state are unchanged; the border stays empty either way |
| `Game.GessGame.Resign` | GessGame.py:87-100 | the state becomes the resigned state for the player to move; the player is unchanged, the board lies outside its frame, and an empty border stays empty (`Valid()` is kept) |

## Left out

- `display_board`, `print_piece` and every `print` call: console output with no effect on the game.
- The commented-out driver at the end of the file.
- Malformed coordinate strings: `convert_string` raises an exception for them. `MakeMove` requires both strings to parse.
- `get_game_state`, `get_player` and `get_board`: in Dafny the `state` and `player` fields and the `board` array are public, and callers read them directly; `Cells()` is the ghost grid value of `board` that the contracts speak of.
- AddPiece: after the first accepted move, rows 0 and 19 are one shared list (GessGame.py:178), and the model keeps them as separate rows of the array. So a direct `add_piece` call centred on row 1 or row 18 that writes a stone into the border row also writes the same column of the other border row. `AddPiece` does not model that second write: its contract changes only the nine footprint cells.
- The sharing of rows 0 and 19 cannot be seen through `make_move`, `resign_game` or the getters while the border is empty. The wipe empties the border after every accepted move. A rejected move writes only `Empty` into border cells that were already empty. This is why `MakeMove` requires `Valid()` (an empty border): under it the unshared array and the shared Python rows hold the same cells.
- The unreachable `else: return False` in `resign_game`: the player is always black or white.
- The text of cells ("|-|", "|X|", "|O|") and of directions: they are modelled as enumerations.
- Stone counts before and after a move are not stated as a capture rule. The count follows from `MovedCells`: it is the count before, minus the stones in the destination footprint outside the starting footprint, minus the stones the wipe takes off the border. The reading "a move captures exactly the stones its destination covers" does not hold. When the two footprints overlap, the destination already holds part of the moving piece, so it is not empty, yet the move may capture nothing. The stones captured may also be the mover's own.
