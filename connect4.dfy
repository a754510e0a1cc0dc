/**
 * The game object: the board array and the three globals the source updates in
 * place, with `pending` standing for the falling-piece animation between
 * `handleClick` and `continueClick`. Every method is proved against the pure
 * state machine of module GameState.
 */
module Connect4 {
  import opened Wrappers
  import opened Board
  import opened WinDetector
  import GameState

  class Game {
    /** `board[y, x]`, row 0 at the top; EMPTY (0) stands for the source's `null`. */
    const board: array2<int>
    var currPlayer: int
    var canClick: bool
    /** A piece has been placed and its animation has not yet called `ContinueClick`. */
    var pending: bool
    /** The contents of `board` as a value. */
    ghost var grid: Grid

    /** The array has the board's shape and `grid` is its contents. */
    ghost predicate Shaped()
      reads this, board
    {
      && board.Length0 == HEIGHT && board.Length1 == WIDTH
      && WellFormed(grid)
      && forall y, x :: 0 <= y < HEIGHT && 0 <= x < WIDTH ==> board[y, x] == grid[y][x]
    }

    ghost predicate Valid()
      reads this, board
    {
      Shaped() && GameState.Valid(State())
    }

    ghost function State(): GameState.State
      reads this
    {
      GameState.State(grid, currPlayer, canClick, pending)
    }

    /** Loading the page: the globals start with the gate closed, then `newGame` runs. */
    constructor ()
      ensures Valid() && fresh(board)
      ensures State() == GameState.Initial()
    {
      board := new int[HEIGHT, WIDTH];
      canClick := false;
      pending := false;
      new;
      NewGame();
    }

    /** `newGame` without its HTML: a fresh empty board, player 1 to move, clicks accepted. */
    method NewGame()
      requires board.Length0 == HEIGHT && board.Length1 == WIDTH && !pending
      modifies this, board
      ensures Valid()
      ensures State() == GameState.Initial()
    {
      MakeBoard();
      currPlayer := 1;
      canClick := true;
      GameState.InitialIsValid();
    }

    /** `makeBoard`: every row is filled with empty cells. */
    method MakeBoard()
      requires board.Length0 == HEIGHT && board.Length1 == WIDTH
      modifies this`grid, board
      ensures Shaped() && grid == EmptyGrid()
    {
      for i := 0 to HEIGHT
        invariant forall y, x :: 0 <= y < i && 0 <= x < WIDTH ==> board[y, x] == EMPTY
      {
        for j := 0 to WIDTH
          invariant forall y, x :: 0 <= y < i && 0 <= x < WIDTH ==> board[y, x] == EMPTY
          invariant forall x :: 0 <= x < j ==> board[i, x] == EMPTY
        {
          board[i, j] := EMPTY;
        }
      }
      grid := EmptyGrid();
    }

    /**
     * `findSpotForCol`: None when the top cell of column x is taken (or x is off the
     * board), otherwise the lowest empty row, found by scanning up from the bottom.
     */
    method FindSpotForCol(x: int) returns (r: Option<int>)
      requires Shaped()
      ensures r == SpotForCol(grid, x)
      ensures r.None? <==> ColumnFull(grid, x)
      ensures r.Some? ==> IsDropSpot(grid, x, r.value)
    {
      // off the board `board[0][x]` is undefined, which is not null
      if x < 0 || WIDTH <= x || board[0, x] != EMPTY {
        return None;
      }
      var row := HEIGHT - 1;
      while row > 0 && board[row, x] != EMPTY
        invariant 0 <= row < HEIGHT
        invariant ScanUp(grid, x, row) == ScanUp(grid, x, HEIGHT - 1)
      {
        row := row - 1;
      }
      return Some(row);
    }

    /**
     * `handleClick` on column x: ignored while the gate is closed; otherwise the gate
     * closes, and either reopens at once (full column) or stays closed while the
     * placed piece is pending.
     */
    method HandleClick(x: int)
      requires Valid()
      modifies this, board
      ensures Valid()
      ensures State() == GameState.Click(old(State()), x)
    {
      GameState.ClickPreservesValid(State(), x);
      if !canClick {
        return;
      }
      canClick := false;
      var y := FindSpotForCol(x);
      if y.None? {
        canClick := true;
        return;
      }
      board[y.value, x] := currPlayer;
      grid := Place(grid, y.value, x, currPlayer);
      // `placeInTable` starts the animation, which ends by calling `ContinueClick`
      pending := true;
    }

    /** `_win(cells)`: every coordinate is on the board and holds the current player's piece. */
    predicate Win(cells: seq<(int, int)>)
      reads this, board
      requires Shaped()
      ensures Win(cells) <==> AllOwned(grid, currPlayer, cells)
    {
      if cells == [] then true
      else
        var (y, x) := cells[0];
        0 <= y < HEIGHT && 0 <= x < WIDTH && board[y, x] == currPlayer && Win(cells[1..])
    }

    /** `checkForWin`: scans every origin in the four directions and stops at the first winning run. */
    method CheckForWin() returns (won: bool)
      requires Shaped()
      ensures won <==> HasWin(grid, currPlayer)
    {
      for y := 0 to HEIGHT
        invariant forall y', x', d :: 0 <= y' < y && 0 <= x' < WIDTH ==> !RunOwned(grid, currPlayer, y', x', d)
      {
        for x := 0 to WIDTH
          invariant forall y', x', d :: 0 <= y' < y && 0 <= x' < WIDTH ==> !RunOwned(grid, currPlayer, y', x', d)
          invariant forall x', d :: 0 <= x' < x ==> !RunOwned(grid, currPlayer, y, x', d)
        {
          LineIsRun(grid, currPlayer, y, x, Horizontal);
          LineIsRun(grid, currPlayer, y, x, Vertical);
          LineIsRun(grid, currPlayer, y, x, DiagDownRight);
          LineIsRun(grid, currPlayer, y, x, DiagDownLeft);
          if Win(Line(y, x, Horizontal)) || Win(Line(y, x, Vertical))
            || Win(Line(y, x, DiagDownRight)) || Win(Line(y, x, DiagDownLeft))
          {
            return true;
          }
          forall d ensures !RunOwned(grid, currPlayer, y, x, d) {
            match d
            case Horizontal =>
            case Vertical =>
            case DiagDownRight =>
            case DiagDownLeft =>
          }
        }
      }
      return false;
    }

    /** The tie test `board[0].every(value !== null)`. */
    method IsTopRowFull() returns (full: bool)
      requires Shaped()
      ensures full <==> TopRowFull(grid)
    {
      for x := 0 to WIDTH
        invariant forall x' :: 0 <= x' < x ==> grid[0][x'] != EMPTY
      {
        if board[0, x] == EMPTY {
          return false;
        }
      }
      return true;
    }

    /**
     * `continueClick`, run once when the animation of the pending piece ends: a win ends
     * the game, else a full top row ends it as a tie, else the turn passes and the gate
     * reopens. The returned outcome is the message the game would announce.
     */
    method ContinueClick() returns (outcome: GameState.Outcome)
      requires Valid() && pending
      modifies this
      ensures Valid()
      ensures outcome == GameState.Resolve(old(State()))
      ensures State() == GameState.Continue(old(State()))
    {
      GameState.ContinuePreservesValid(State());
      pending := false;
      var won := CheckForWin();
      if won {
        outcome := GameState.Won(currPlayer);
        return;
      }
      var tie := IsTopRowFull();
      if tie {
        outcome := GameState.Tied;
        return;
      }
      currPlayer := if currPlayer == 1 then 2 else 1;
      canClick := true;
      outcome := GameState.Switched(currPlayer);
    }
  }
}
