/**
 * The turn and input state machine of the game, as values. The three globals of
 * the source (`board`, `currPlayer`, `canClick`) plus `pending`, which stands for
 * the falling-piece animation that separates `handleClick` from `continueClick`.
 */
module GameState {
  import opened Wrappers
  import opened Board
  import opened WinDetector

  datatype State = State(grid: Grid, player: int, canClick: bool, pending: bool)

  /** Which branch of `continueClick` ran: the win message, the tie message, or the switch to the next player. */
  datatype Outcome = Won(winner: int) | Tied | Switched(next: int)

  /** The invariant every reachable state keeps. */
  ghost predicate Valid(s: State) {
    && WellFormed(s.grid)
    && CellsValid(s.grid)
    && Gravity(s.grid)
    && IsPlayer(s.player)
    // the gate is closed while a placed piece is still being resolved
    && !(s.canClick && s.pending)
    // no win has gone unannounced: while the game accepts clicks neither player has
    // four in a row, and while a move is pending only the mover can have one
    && (s.canClick ==> !HasWin(s.grid, 1) && !HasWin(s.grid, 2))
    && (s.pending ==> !HasWin(s.grid, Other(s.player)))
  }

  /** The game is over: the gate stays closed and nothing is pending. */
  predicate Finished(s: State) {
    !s.canClick && !s.pending
  }

  /** The state `newGame` sets up: an empty board, player 1 to move, clicks accepted. */
  function Initial(): (s: State)
    ensures s.player == 1 && s.canClick && !s.pending
    ensures WellFormed(s.grid) && forall y, x :: InBounds(y, x) ==> s.grid[y][x] == EMPTY
  {
    State(EmptyGrid(), 1, true, false)
  }

  lemma InitialIsValid()
    ensures Valid(Initial()) && !Finished(Initial())
    ensures forall y, x :: InBounds(y, x) ==> Initial().grid[y][x] == EMPTY
  {
  }

  /** A click on column x is accepted: the gate is open and the column has room. */
  predicate Accepts(s: State, x: int)
    requires WellFormed(s.grid)
  {
    s.canClick && SpotForCol(s.grid, x).Some?
  }

  /** `handleClick` on column x. */
  function Click(s: State, x: int): (r: State)
    requires WellFormed(s.grid)
    ensures WellFormed(r.grid)
    ensures r.player == s.player
    ensures r != s ==> s.canClick && !r.canClick && r.pending
  {
    if !s.canClick then s
    else
      match SpotForCol(s.grid, x)
      // the gate is closed and reopened at once: no visible change
      case None => s
      case Some(y) => s.(grid := Place(s.grid, y, x, s.player), canClick := false, pending := true)
  }

  /** With the gate closed a click changes nothing: board, player and gate stay as they are. */
  lemma ClickWhileLockedIsIgnored(s: State, x: int)
    requires WellFormed(s.grid) && !s.canClick
    ensures Click(s, x) == s
  {
  }

  /** A click on a full or nonexistent column leaves board and player alone and the gate open. */
  lemma ClickOnFullColumnIsIgnored(s: State, x: int)
    requires WellFormed(s.grid) && s.canClick && ColumnFull(s.grid, x)
    ensures Click(s, x) == s && Click(s, x).canClick
  {
  }

  /**
   * An accepted click writes the current player into exactly one cell, the drop spot of
   * the column, keeps the player, and closes the gate while the piece is pending.
   */
  lemma AcceptedClick(s: State, x: int, y: int)
    requires WellFormed(s.grid) && s.canClick && SpotForCol(s.grid, x) == Some(y)
    ensures var r := Click(s, x);
      && IsDropSpot(s.grid, x, y)
      && r.grid[y][x] == s.player
      && (forall y', x' :: InBounds(y', x') && (y' != y || x' != x) ==> r.grid[y'][x'] == s.grid[y'][x'])
      && r.player == s.player && !r.canClick && r.pending
  {
  }

  /** A click is accepted exactly when it changes the board. */
  lemma ClickChangesBoardIffAccepted(s: State, x: int)
    requires Valid(s)
    ensures Accepts(s, x) <==> Click(s, x).grid != s.grid
  {
  }

  /** The checks of `continueClick`, in the source's order: a win first, then a full top row. */
  ghost function Resolve(s: State): (o: Outcome)
    requires WellFormed(s.grid)
    ensures o.Won? <==> HasWin(s.grid, s.player)
    ensures o.Won? ==> o.winner == s.player
    ensures o.Tied? ==> TopRowFull(s.grid)
    ensures o.Switched? ==> !TopRowFull(s.grid) && o.next != s.player && (IsPlayer(s.player) ==> IsPlayer(o.next))
  {
    if HasWin(s.grid, s.player) then Won(s.player)
    else if TopRowFull(s.grid) then Tied
    else Switched(Other(s.player))
  }

  /** `continueClick`, once the animation has ended: the new state after the checks. */
  ghost function Continue(s: State): (r: State)
    requires WellFormed(s.grid)
    ensures r.grid == s.grid && !r.pending
  {
    match Resolve(s)
    case Switched(next) => s.(player := next, canClick := true, pending := false)
    case _ => s.(pending := false)
  }

  /** A board-filling move that also completes four in a row is a win, not a tie. */
  lemma WinBeforeTie(s: State)
    requires WellFormed(s.grid) && HasWin(s.grid, s.player) && TopRowFull(s.grid)
    ensures Resolve(s) == Won(s.player)
  {
  }

  /**
   * Resolving a pending move: on a win or a tie the game is over with the gate shut and
   * the same player; otherwise the turn passes to the other player and the gate reopens.
   * A tie really is a full board with no win.
   */
  lemma ContinueOutcome(s: State)
    requires Valid(s) && s.pending
    ensures var r := Continue(s);
      && (Resolve(s).Won? <==> HasWin(s.grid, s.player))
      && (Resolve(s).Tied? ==> forall y, x :: InBounds(y, x) ==> s.grid[y][x] != EMPTY)
      && (!Resolve(s).Switched? ==> Finished(r) && r.player == s.player)
      && (Resolve(s).Switched? ==> r.player == Other(s.player) && r.player != s.player && r.canClick)
  {
    TopRowFullMeansBoardFull(s.grid);
  }

  /**
   * Checking only the player who just moved misses nothing: in a reachable state with a
   * move pending, some player has four in a row exactly when the mover has, and then
   * the mover is announced as the winner.
   */
  lemma OnlyMoverCanWin(s: State)
    requires Valid(s) && s.pending
    ensures (exists q :: IsPlayer(q) && HasWin(s.grid, q)) <==> Resolve(s).Won?
    ensures Resolve(s).Won? ==> Resolve(s).winner == s.player
  {
    if exists q :: IsPlayer(q) && HasWin(s.grid, q) {
      var q :| IsPlayer(q) && HasWin(s.grid, q);
      assert q == s.player || q == Other(s.player);
    }
  }

  /** An accepted click keeps the invariant, in particular no piece floats. */
  lemma ClickPreservesValid(s: State, x: int)
    requires Valid(s)
    ensures Valid(Click(s, x))
  {
    if s.canClick && SpotForCol(s.grid, x).Some? {
      var y := SpotForCol(s.grid, x).value;
      PlacingKeepsOtherWins(s.grid, y, x, s.player, Other(s.player));
    }
  }

  lemma ContinuePreservesValid(s: State)
    requires Valid(s) && s.pending
    ensures Valid(Continue(s))
  {
    assert s.player == 1 || s.player == 2;
  }

  /** What drives the game: a click on a column, or the end of the falling-piece animation. */
  datatype Input = ClickColumn(col: int) | AnimationDone

  /**
   * One input. The animation ends, and `continueClick` runs, only for a piece that was
   * placed, so an `AnimationDone` with nothing pending is not an event the game sees.
   */
  ghost function Step(s: State, i: Input): (r: State)
    requires WellFormed(s.grid)
    ensures WellFormed(r.grid)
  {
    match i
    case ClickColumn(x) => Click(s, x)
    case AnimationDone => if s.pending then Continue(s) else s
  }

  ghost function Run(s: State, inputs: seq<Input>): (r: State)
    requires WellFormed(s.grid)
    ensures WellFormed(r.grid)
    decreases |inputs|
  {
    if inputs == [] then s else Run(Step(s, inputs[0]), inputs[1..])
  }

  /** The players whose pieces land on the board, in order, while `inputs` are processed. */
  ghost function Placed(s: State, inputs: seq<Input>): seq<int>
    requires WellFormed(s.grid)
    decreases |inputs|
  {
    if inputs == [] then []
    else
      var here := if inputs[0].ClickColumn? && Accepts(s, inputs[0].col) then [s.player] else [];
      here + Placed(Step(s, inputs[0]), inputs[1..])
  }

  lemma StepPreservesValid(s: State, i: Input)
    requires Valid(s)
    ensures Valid(Step(s, i))
  {
    match i
    case ClickColumn(x) => ClickPreservesValid(s, x);
    case AnimationDone => if s.pending { ContinuePreservesValid(s); }
  }

  /** Every state reachable from a valid one is valid. */
  lemma {:induction false} RunPreservesValid(s: State, inputs: seq<Input>)
    requires Valid(s)
    ensures Valid(Run(s, inputs))
    decreases |inputs|
  {
    if inputs != [] {
      StepPreservesValid(s, inputs[0]);
      RunPreservesValid(Step(s, inputs[0]), inputs[1..]);
    }
  }

  /** A finished game is never left: no input changes it and no further piece is placed. */
  lemma {:induction false} FinishedIsAbsorbing(s: State, inputs: seq<Input>)
    requires WellFormed(s.grid) && Finished(s)
    ensures Run(s, inputs) == s && Placed(s, inputs) == []
    decreases |inputs|
  {
    if inputs != [] {
      assert Step(s, inputs[0]) == s;
      FinishedIsAbsorbing(s, inputs[1..]);
    }
  }

  /** The player whose piece is placed next: the pending mover's opponent, otherwise the current player. */
  function NextMover(s: State): int {
    if s.pending then Other(s.player) else s.player
  }

  /** Players strictly alternate: each piece placed belongs to the opponent of the one placed before it. */
  lemma {:induction false} PlayersAlternate(s: State, inputs: seq<Input>)
    requires Valid(s)
    ensures var ps := Placed(s, inputs);
      && (|ps| > 0 ==> ps[0] == NextMover(s))
      && (forall i :: 0 <= i < |ps| - 1 ==> ps[i + 1] == Other(ps[i]))
    decreases |inputs|
  {
    if inputs != [] {
      var i, rest := inputs[0], inputs[1..];
      var s' := Step(s, i);
      StepPreservesValid(s, i);
      PlayersAlternate(s', rest);
      if i.ClickColumn? && Accepts(s, i.col) {
        assert s'.pending && s'.player == s.player;
      } else if i.AnimationDone? && s.pending && !Resolve(s).Switched? {
        FinishedIsAbsorbing(s', rest);
      }
    }
  }

  /** From a new game, player 1 places the first, third, fifth ... piece and player 2 the others. */
  lemma {:induction false} TurnOrderFromNewGame(inputs: seq<Input>)
    ensures var ps := Placed(Initial(), inputs);
      forall i :: 0 <= i < |ps| ==> ps[i] == if i % 2 == 0 then 1 else 2
  {
    InitialIsValid();
    var ps := Placed(Initial(), inputs);
    PlayersAlternate(Initial(), inputs);
    forall i | 0 <= i < |ps| ensures ps[i] == if i % 2 == 0 then 1 else 2 {
      TurnOrderAt(ps, i);
    }
  }

  lemma {:induction false} TurnOrderAt(ps: seq<int>, i: int)
    requires 0 <= i < |ps|
    requires |ps| > 0 ==> ps[0] == 1
    requires forall j :: 0 <= j < |ps| - 1 ==> ps[j + 1] == Other(ps[j])
    ensures ps[i] == if i % 2 == 0 then 1 else 2
    decreases i
  {
    if i > 0 {
      TurnOrderAt(ps, i - 1);
      assert ps[i] == Other(ps[i - 1]);
    }
  }
}
