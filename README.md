# Connect Four rules engine in Dafny

A model of the rules engine of a browser Connect Four game (`connect4.js`), with
the HTML and the animation taken out. Two players drop pieces into the seven
columns of a six-row board. A piece lands in the lowest empty cell of its column.
After each move the game checks for four in a row (horizontal, vertical or either
diagonal) by the player who just moved. If there is none, it checks for a full
top row (a tie). Otherwise the turn passes to the other player.

The game keeps three globals: the board, the current player, and a click gate
(`canClick`). The gate is closed while a dropped piece is still being resolved.
Here they are the fields of a class `Connect4.Game`. The board is a `const
array2<int>` that is updated in place. The class has one more field, `pending`,
which stands for the falling-piece animation: `HandleClick` places the piece and
sets it, and `ContinueClick` (the code that runs when the animation ends) clears
it.

Modules:

- `Wrappers` (`wrappers.dfy`): `Option`, which stands for the source's `null` result.
- `Board` (`board.dfy`): the grid as a value. Defines the empty board, placing a
  piece, the drop-row scan, the no-floating-pieces invariant and the tie test.
- `WinDetector` (`win_detector.dfy`): the four directions, the coordinate lists
  the source builds, `_win`, and `HasWin`. Also proves that the win test does not
  change under mirroring or swapping the players, and that it equals a scan with
  no negative offsets.
- `GameState` (`game_state.dfy`): the turn and input state machine as pure
  functions (`Click`, `Resolve`, `Continue`, `Run`). Proves its invariant, that a
  finished game stays finished, and that players strictly alternate.
- `Connect4` (`connect4.dfy`): the class `Game`. The ghost field `grid` holds the
  array's contents as a value. Each method is proved against `GameState` and
  `Board`.

Cells hold `0` (`EMPTY`, the source's `null`), `1` or `2`. Row 0 is the top.

## Model

| member | source | states |
|---|---|---|
| `Board.ColumnFull` | connect4.js:111-114 | the test `board[0][x] !== null`, true off the board; a column it does not call full always has a cell a piece can drop into |
| `Board.TopRowFull` | connect4.js:95-97 | the tie test; a full top row means every column is refused |
| `Board.EmptyGrid` | connect4.js:30-36 | `makeBoard` produces HEIGHT rows of WIDTH cells, every one of them empty |
| `Board.Place` | connect4.js:85 | writing a piece sets cell (y, x) to the player and leaves every other cell as it was |
| `Board.ScanUp` | connect4.js:115-119 | the upward scan stops at a row no lower than where it started; every row it passed over is occupied; a stop above row 0 is at an empty cell |
| `Board.SpotForCol` | connect4.js:111-120 | `findSpotForCol` returns null exactly when the top cell is taken or the column is off the board; otherwise it returns an empty row on the board with every cell below it occupied |
| `Board.DropSpotIsUnique` | connect4.js:111-119 | the row returned is the only drop spot of a column whose top cell is free, so it is the largest empty row |
| `Board.ColumnFullUnderGravity` | connect4.js:111-114 | if no piece floats, a column on the board is "full" by the top-cell test exactly when all its cells are occupied |
| `Board.PlaceAtDropSpotKeepsGravity` | connect4.js:85 | placing a piece at the drop spot keeps every column a contiguous run of pieces ending at the bottom row |
| `Board.TopRowFullMeansBoardFull` | connect4.js:95-97 | if no piece floats, the tie test (every top cell non-null) holds exactly when every cell of the board is occupied |
| `WinDetector.Line` | connect4.js:169-172 | the coordinate list built for an origin and a direction: four distinct cells, the first of them the origin |
| `WinDetector.HasWin` | connect4.js:150-179 | the result of `checkForWin` as a definition: some on-board origin and direction give four on-board cells of the player; a win needs at least one of the player's pieces on the board |
| `WinDetector.LineIsRun` | connect4.js:151-172 | `_win` on the coordinate list `horiz`/`vert`/`diagDR`/`diagDL` holds exactly when all four cells of that run are on the board and hold the player's piece |
| `WinDetector.HasWinWithoutNegativeOffsets` | connect4.js:165-172 | scanning every origin with bounds checked per cell finds a win exactly when scanning only the runs that fit, with the down-left diagonal kept inside a 4x4 square, finds one |
| `WinDetector.MirrorRun` | connect4.js:169-172 | a winning run has a mirror image that wins on the mirrored board, from the same row: horizontal stays horizontal (origin column WIDTH - 4 - x, since its cells reverse order), vertical stays vertical, and the two diagonals swap (origin column WIDTH - 1 - x) |
| `WinDetector.MirrorKeepsWin` | connect4.js:166-177 | mirroring the board left to right neither creates nor destroys a win of any player |
| `WinDetector.SwapPlayersKeepsWin` | connect4.js:155-177 | after exchanging the two players' pieces, the other player has a win exactly when p had one before |
| `WinDetector.PlacingKeepsOtherWins` | connect4.js:85-91 | dropping p's piece into an empty cell neither creates nor destroys a win for any other player |
| `WinDetector.RisingDiagonalWins` | connect4.js:171-177 | a board holding player 2 at (5,0), (4,1), (3,2), (2,3) is a win for 2 (the down-left run from (2,3)) and not for 1 |
| `GameState.Initial` | connect4.js:15-36 | the state `newGame` sets up: every cell empty, player 1 to move, the gate open, nothing pending |
| `GameState.InitialIsValid` | connect4.js:15-36 | the new game satisfies the invariant (in particular neither player has a win) and is not finished |
| `GameState.Click` | connect4.js:68-88 | `handleClick` as a function of the state; it never changes the player, and whenever it changes anything the gate was open and is now shut with a move pending |
| `GameState.ClickWhileLockedIsIgnored` | connect4.js:69-71 | with the gate closed a click changes nothing: board, player and gate stay the same |
| `GameState.ClickOnFullColumnIsIgnored` | connect4.js:77-82 | a click on a full or off-board column leaves board and player unchanged and the gate open |
| `GameState.AcceptedClick` | connect4.js:72-85 | an accepted click writes the current player into the column's drop spot and changes no other cell; the player stays and the gate stays closed while the move is pending |
| `GameState.ClickChangesBoardIffAccepted` | connect4.js:69-85 | a click changes the board if and only if the gate is open and the column has room |
| `GameState.ClickPreservesValid` | connect4.js:68-88 | a click keeps the invariant: the board is well formed, cells are empty or 1 or 2, no piece floats, the player is 1 or 2, the gate is never open while a move is pending, no player has a win while the gate is open, and the non-mover has none while a move is pending |
| `GameState.Resolve` | connect4.js:91-107 | the verdict of `continueClick`: a win exactly when the mover has four in a row, won by the mover; a tie only with a full top row; otherwise the turn passes to a different player |
| `GameState.Continue` | connect4.js:89-108 | resolving a move never changes the board and always ends the pending state |
| `GameState.WinBeforeTie` | connect4.js:91-99 | a move that fills the top row and also makes four in a row counts as a win |
| `GameState.ContinueOutcome` | connect4.js:89-108 | on a win or a tie the game is over with the gate shut and the player unchanged; a tie is a full board with no win; otherwise the other player moves and the gate reopens |
| `GameState.ContinuePreservesValid` | connect4.js:89-107 | resolving a pending move keeps the invariant |
| `GameState.OnlyMoverCanWin` | connect4.js:89-93 | in a valid state with a move pending, some player has four in a row exactly when the verdict is a win, and the winner is the mover, so checking only the current player misses no win |
| `GameState.RunPreservesValid` | connect4.js:68-108 | every state reachable from a valid state by clicks and animation ends is valid |
| `GameState.FinishedIsAbsorbing` | connect4.js:69-71 | once the game is over (gate shut, nothing pending), no input changes the state and no piece is placed |
| `GameState.PlayersAlternate` | connect4.js:85-106 | each piece placed belongs to the opponent of the previous piece, and the first one belongs to the player due to move next |
| `GameState.TurnOrderFromNewGame` | connect4.js:19-24 | from a new game, player 1 places the 1st, 3rd, 5th ... piece and player 2 the others |
| `Connect4.Game.constructor` | connect4.js:9-13 | the page's start-up: a fresh 6x7 board array and the state of a new game |
| `Connect4.Game.NewGame` | connect4.js:15-25 | the board is emptied in place, player 1 is to move and the gate is open |
| `Connect4.Game.MakeBoard` | connect4.js:30-36 | after the fill loop every cell of the array is empty |
| `Connect4.Game.FindSpotForCol` | connect4.js:111-120 | the loop's answer is `SpotForCol` of the board: null exactly for a full or off-board column, otherwise the drop spot |
| `Connect4.Game.HandleClick` | connect4.js:68-88 | the new board, player, gate and pending flag are `Click` of the old ones, and the object invariant holds again |
| `Connect4.Game.Win` | connect4.js:151-163 | `_win` on the array holds exactly when every listed cell is on the board and holds the current player's piece |
| `Connect4.Game.CheckForWin` | connect4.js:150-179 | the nested scan with early return yields true exactly when the current player has four in a row |
| `Connect4.Game.IsTopRowFull` | connect4.js:95-97 | the tie test is true exactly when every top-row cell is occupied |
| `Connect4.Game.ContinueClick` | connect4.js:89-108 | the new state is `Continue` of the old one, and the outcome returned is its verdict: won by the current player, tied, or switched to the other player |

## Left out

- HTML table construction, CSS classes and the header colour (connect4.js:17, 20-22, 39-65, 103-105) are presentation only.
- The pixel animation in `placeInTable` (connect4.js:122-141) is left out. The time between placing a piece and `continueClick` is the `pending` flag. `ContinueClick` requires it, because its only caller is the animation's end, which runs once per placed piece. For the same reason, `GameState.Step` ignores an animation end when nothing is pending.
- The `setTimeout`, `alert` and restart in `endGame` (connect4.js:92, 98, 143-147) are timing and UI. A won or tied game is a terminal state with the gate shut. The restart would be a call to `Game.NewGame` from that state. `ContinueClick` returns the outcome that would be announced instead of showing it.
- Reading the column from the clicked element's id (connect4.js:75) is left out. The column is an `int` parameter, and every out-of-range value is allowed. A non-numeric id (NaN) or a fractional one reads as `undefined` at `board[0][x]`, the same as an off-board integer, so it is covered by that case.
- The `board.push(new Array(HEIGHT))` at connect4.js:31 is left out. After the first game it leaves an extra row past the bottom that no code reads. The board here is exactly 6x7.
- `checkForWin` returns `undefined` when there is no win. This model returns `false`.
- `currPlayer` is `undefined` until `newGame` runs at start-up. The constructor runs `NewGame` before anything else, so the model never has that state.
- An off-board column is not rejected. `board[0][x]` is `undefined` there, so `findSpotForCol` returns `null` as for a full column, and `SpotForCol` does the same.
- A new game refills the same `const board` array in place. `NewGame` models that.
