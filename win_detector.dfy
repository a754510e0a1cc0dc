/**
 * Four-in-a-row detection. A run starts at an origin cell and extends three more
 * cells in one of four directions; it wins for a player when all four cells are
 * on the board and hold that player's piece. Bounds are checked cell by cell, so
 * origins whose run leaves the board are simply never winning.
 */
module WinDetector {
  import opened Board

  datatype Direction = Horizontal | Vertical | DiagDownRight | DiagDownLeft

  /** The k-th cell (k = 0..3) of the run from (y, x) in direction d. */
  function Cell(y: int, x: int, d: Direction, k: int): (int, int) {
    match d
    case Horizontal => (y, x + k)
    case Vertical => (y + k, x)
    case DiagDownRight => (y + k, x + k)
    case DiagDownLeft => (y + k, x - k)
  }

  /** The coordinate list `horiz`, `vert`, `diagDR` or `diagDL` that `checkForWin` builds for origin (y, x). */
  function Line(y: int, x: int, d: Direction): (cells: seq<(int, int)>)
    ensures |cells| == 4 && cells[0] == (y, x)
    ensures forall i, j :: 0 <= i < j < |cells| ==> cells[i] != cells[j]
  {
    [Cell(y, x, d, 0), Cell(y, x, d, 1), Cell(y, x, d, 2), Cell(y, x, d, 3)]
  }

  /** The per-cell test of `_win`: the coordinate is on the board and holds a piece of `p`. */
  predicate Owns(g: Grid, p: int, c: (int, int))
    requires WellFormed(g)
  {
    InBounds(c.0, c.1) && g[c.0][c.1] == p
  }

  /** `_win(cells)`: every listed coordinate passes the per-cell test. */
  ghost predicate AllOwned(g: Grid, p: int, cells: seq<(int, int)>)
    requires WellFormed(g)
  {
    forall i :: 0 <= i < |cells| ==> Owns(g, p, cells[i])
  }

  /** The four cells of the run from (y, x) in direction d all hold a piece of p. */
  ghost predicate RunOwned(g: Grid, p: int, y: int, x: int, d: Direction)
    requires WellFormed(g)
  {
    forall k :: 0 <= k < 4 ==> Owns(g, p, Cell(y, x, d, k))
  }

  /** Player p has four in a row: some origin on the board and some direction give a run of four of p's pieces. */
  ghost predicate HasWin(g: Grid, p: int)
    requires WellFormed(g)
    ensures HasWin(g, p) ==> exists y, x :: InBounds(y, x) && g[y][x] == p
  {
    // a run's first cell is its origin
    assert forall y, x, d :: RunOwned(g, p, y, x, d) ==> Owns(g, p, Cell(y, x, d, 0));
    exists y, x, d :: InBounds(y, x) && RunOwned(g, p, y, x, d)
  }

  /** `_win` applied to the coordinate list of a run decides exactly whether that run is owned. */
  lemma LineIsRun(g: Grid, p: int, y: int, x: int, d: Direction)
    requires WellFormed(g)
    ensures AllOwned(g, p, Line(y, x, d)) <==> RunOwned(g, p, y, x, d)
  {
    var line := Line(y, x, d);
    if AllOwned(g, p, line) {
      forall k | 0 <= k < 4 ensures Owns(g, p, Cell(y, x, d, k)) {
        assert line[k] == Cell(y, x, d, k);
      }
    }
    if RunOwned(g, p, y, x, d) {
      forall i | 0 <= i < |line| ensures Owns(g, p, line[i]) {
        assert line[i] == Cell(y, x, d, i);
      }
    }
  }

  /*
   * The scan proposed by the comment at the top of the source's loop: keep the
   * four cells of every run inside the 4x4 square to the right of and below the
   * origin (the down-left diagonal becomes the anti-diagonal of that square), so
   * that only origins whose run fits on the board need to be visited.
   */

  /** The k-th cell of the run from (y, x) with no negative offsets. */
  function ForwardCell(y: int, x: int, d: Direction, k: int): (int, int) {
    match d
    case Horizontal => (y, x + k)
    case Vertical => (y + k, x)
    case DiagDownRight => (y + k, x + k)
    case DiagDownLeft => (y + k, x + 3 - k)
  }

  /** Rows and columns spanned by a run in direction d. */
  function SpanY(d: Direction): int {
    if d == Horizontal then 1 else 4
  }

  function SpanX(d: Direction): int {
    if d == Vertical then 1 else 4
  }

  ghost predicate ForwardRunOwned(g: Grid, p: int, y: int, x: int, d: Direction)
    requires WellFormed(g)
  {
    forall k :: 0 <= k < 4 ==> Owns(g, p, ForwardCell(y, x, d, k))
  }

  /** A win found by scanning only the origins whose run fits entirely on the board. */
  ghost predicate HasWinForward(g: Grid, p: int)
    requires WellFormed(g)
  {
    exists y, x, d :: 0 <= y && y + SpanY(d) <= HEIGHT && 0 <= x && x + SpanX(d) <= WIDTH && ForwardRunOwned(g, p, y, x, d)
  }

  /** Checking bounds per cell over every origin finds exactly the wins the restricted, minus-free scan finds. */
  lemma HasWinWithoutNegativeOffsets(g: Grid, p: int)
    requires WellFormed(g)
    ensures HasWin(g, p) <==> HasWinForward(g, p)
  {
    if HasWin(g, p) {
      var y, x, d :| InBounds(y, x) && RunOwned(g, p, y, x, d);
      assert Owns(g, p, Cell(y, x, d, 3));
      var x' := if d == DiagDownLeft then x - 3 else x;
      forall k | 0 <= k < 4 ensures Owns(g, p, ForwardCell(y, x', d, k)) {
        assert ForwardCell(y, x', d, k) == Cell(y, x, d, k);
      }
      assert ForwardRunOwned(g, p, y, x', d);
    }
    if HasWinForward(g, p) {
      var y, x, d :| 0 <= y && y + SpanY(d) <= HEIGHT && 0 <= x && x + SpanX(d) <= WIDTH && ForwardRunOwned(g, p, y, x, d);
      var x' := if d == DiagDownLeft then x + 3 else x;
      forall k | 0 <= k < 4 ensures Owns(g, p, Cell(y, x', d, k)) {
        assert Cell(y, x', d, k) == ForwardCell(y, x, d, k);
      }
      assert InBounds(y, x') && RunOwned(g, p, y, x', d);
    }
  }

  /** The board seen in a mirror: column x becomes column WIDTH - 1 - x. */
  function Mirror(g: Grid): (m: Grid)
    requires WellFormed(g)
    ensures WellFormed(m)
    ensures forall y, x :: InBounds(y, x) ==> m[y][x] == g[y][WIDTH - 1 - x]
  {
    seq(HEIGHT, y requires 0 <= y < HEIGHT => seq(WIDTH, x requires 0 <= x < WIDTH => g[y][WIDTH - 1 - x]))
  }

  lemma MirrorTwice(g: Grid)
    requires WellFormed(g)
    ensures Mirror(Mirror(g)) == g
  {
    var m := Mirror(Mirror(g));
    forall y | 0 <= y < HEIGHT ensures m[y] == g[y] {
      forall x | 0 <= x < WIDTH ensures m[y][x] == g[y][x] {
        assert InBounds(y, WIDTH - 1 - x);
      }
    }
  }

  /** The direction a run has in the mirror: horizontal and vertical are kept, the two diagonals swap. */
  function MirrorDirection(d: Direction): Direction {
    match d
    case Horizontal => Horizontal
    case Vertical => Vertical
    case DiagDownRight => DiagDownLeft
    case DiagDownLeft => DiagDownRight
  }

  /** The mirror image of a run: the same four cells, seen from the mirrored origin and direction. */
  lemma MirrorRun(g: Grid, p: int, y: int, x: int, d: Direction) returns (x': int, d': Direction)
    requires WellFormed(g) && InBounds(y, x) && RunOwned(g, p, y, x, d)
    ensures InBounds(y, x') && RunOwned(Mirror(g), p, y, x', d')
    ensures d' == MirrorDirection(d)
    ensures x' == if d == Horizontal then WIDTH - 4 - x else WIDTH - 1 - x
  {
    var m := Mirror(g);
    assert Owns(g, p, Cell(y, x, d, 3));
    match d
    case Horizontal =>
      x', d' := WIDTH - 4 - x, Horizontal;
      forall k | 0 <= k < 4 ensures Owns(m, p, Cell(y, x', d', k)) {
        assert Owns(g, p, Cell(y, x, d, 3 - k));
      }
    case Vertical =>
      x', d' := WIDTH - 1 - x, Vertical;
      forall k | 0 <= k < 4 ensures Owns(m, p, Cell(y, x', d', k)) {
        assert Owns(g, p, Cell(y, x, d, k));
      }
    case DiagDownRight =>
      x', d' := WIDTH - 1 - x, DiagDownLeft;
      forall k | 0 <= k < 4 ensures Owns(m, p, Cell(y, x', d', k)) {
        assert Owns(g, p, Cell(y, x, d, k));
      }
    case DiagDownLeft =>
      x', d' := WIDTH - 1 - x, DiagDownRight;
      forall k | 0 <= k < 4 ensures Owns(m, p, Cell(y, x', d', k)) {
        assert Owns(g, p, Cell(y, x, d, k));
      }
  }

  /** Mirroring the board left to right neither creates nor destroys a win. */
  lemma MirrorKeepsWin(g: Grid, p: int)
    requires WellFormed(g)
    ensures HasWin(Mirror(g), p) <==> HasWin(g, p)
  {
    if HasWin(g, p) {
      var y, x, d :| InBounds(y, x) && RunOwned(g, p, y, x, d);
      var x', d' := MirrorRun(g, p, y, x, d);
    }
    if HasWin(Mirror(g), p) {
      var y, x, d :| InBounds(y, x) && RunOwned(Mirror(g), p, y, x, d);
      var x', d' := MirrorRun(Mirror(g), p, y, x, d);
      MirrorTwice(g);
    }
  }

  /** The board with the two players' pieces exchanged. */
  function SwapPlayers(g: Grid): (h: Grid)
    requires WellFormed(g)
    ensures WellFormed(h)
    ensures forall y, x :: InBounds(y, x) ==> h[y][x] == (if IsPlayer(g[y][x]) then Other(g[y][x]) else g[y][x])
  {
    seq(HEIGHT, y requires 0 <= y < HEIGHT =>
      seq(WIDTH, x requires 0 <= x < WIDTH => if IsPlayer(g[y][x]) then Other(g[y][x]) else g[y][x]))
  }

  /** Exchanging the players' pieces turns a win of p into a win of the other player, and back. */
  lemma SwapPlayersKeepsWin(g: Grid, p: int)
    requires WellFormed(g) && IsPlayer(p)
    ensures HasWin(SwapPlayers(g), Other(p)) <==> HasWin(g, p)
  {
    var h := SwapPlayers(g);
    forall y, x, d | InBounds(y, x)
      ensures RunOwned(h, Other(p), y, x, d) <==> RunOwned(g, p, y, x, d)
    {
      forall k | 0 <= k < 4
        ensures Owns(h, Other(p), Cell(y, x, d, k)) <==> Owns(g, p, Cell(y, x, d, k))
      {
      }
    }
  }

  /**
   * Dropping a piece of p into an empty cell neither creates nor destroys a win of any
   * other player. This is the step that GameState.OnlyMoverCanWin builds on.
   */
  lemma PlacingKeepsOtherWins(g: Grid, y: int, x: int, p: int, q: int)
    requires WellFormed(g) && InBounds(y, x) && g[y][x] == EMPTY && q != p && q != EMPTY
    ensures HasWin(Place(g, y, x, p), q) <==> HasWin(g, q)
  {
    var h := Place(g, y, x, p);
    forall y0, x0, d | InBounds(y0, x0)
      ensures RunOwned(h, q, y0, x0, d) <==> RunOwned(g, q, y0, x0, d)
    {
      forall k | 0 <= k < 4
        ensures Owns(h, q, Cell(y0, x0, d, k)) <==> Owns(g, q, Cell(y0, x0, d, k))
      {
      }
    }
  }

  /** The diagonal (5,0) (4,1) (3,2) (2,3), seen from origin (2,3) going down-left, is a win. */
  lemma RisingDiagonalWins()
    ensures var g := Place(Place(Place(Place(EmptyGrid(), 5, 0, 2), 4, 1, 2), 3, 2, 2), 2, 3, 2);
      HasWin(g, 2) && !HasWin(g, 1)
  {
    var g := Place(Place(Place(Place(EmptyGrid(), 5, 0, 2), 4, 1, 2), 3, 2, 2), 2, 3, 2);
    assert forall y, x :: InBounds(y, x) ==> g[y][x] != 1;
    forall y, x, d | InBounds(y, x) ensures !RunOwned(g, 1, y, x, d) {
      assert !Owns(g, 1, Cell(y, x, d, 0));
    }
    forall k | 0 <= k < 4 ensures Owns(g, 2, Cell(2, 3, DiagDownLeft, k)) {
    }
    assert RunOwned(g, 2, 2, 3, DiagDownLeft);
  }
}
