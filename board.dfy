/**
 * The Connect Four board: a HEIGHT x WIDTH grid indexed `g[y][x]`, row 0 at the
 * top and row HEIGHT - 1 at the bottom. A cell holds EMPTY (the source's `null`)
 * or a player number.
 */
module Board {
  import opened Wrappers

  const WIDTH: int := 7
  const HEIGHT: int := 6

  /** The value of a cell that holds no piece. */
  const EMPTY: int := 0

  type Grid = seq<seq<int>>

  predicate InBounds(y: int, x: int) {
    0 <= y < HEIGHT && 0 <= x < WIDTH
  }

  predicate IsPlayer(p: int) {
    p == 1 || p == 2
  }

  /** The player who moves after `p`. */
  function Other(p: int): int {
    if p == 1 then 2 else 1
  }

  predicate WellFormed(g: Grid) {
    |g| == HEIGHT && forall y :: 0 <= y < HEIGHT ==> |g[y]| == WIDTH
  }

  /** Every cell is empty or holds a piece of one of the two players. */
  ghost predicate CellsValid(g: Grid)
    requires WellFormed(g)
  {
    forall y, x :: InBounds(y, x) ==> g[y][x] == EMPTY || IsPlayer(g[y][x])
  }

  /** No floating pieces: in every column the occupied cells form a contiguous run ending at the bottom row. */
  ghost predicate Gravity(g: Grid)
    requires WellFormed(g)
  {
    forall y, y', x :: 0 <= y < y' < HEIGHT && 0 <= x < WIDTH && g[y][x] != EMPTY ==> g[y'][x] != EMPTY
  }

  /** The board `makeBoard` builds: HEIGHT rows of WIDTH empty cells. */
  function EmptyGrid(): (g: Grid)
    ensures WellFormed(g)
    ensures forall y, x :: InBounds(y, x) ==> g[y][x] == EMPTY
  {
    seq(HEIGHT, _ => seq(WIDTH, _ => EMPTY))
  }

  /** Puts piece `p` at (y, x); the cell the source writes with `board[y][x] = currPlayer`. */
  function Place(g: Grid, y: int, x: int, p: int): (h: Grid)
    requires WellFormed(g) && InBounds(y, x)
    ensures WellFormed(h)
    ensures h[y][x] == p
    ensures forall y', x' :: InBounds(y', x') && (y' != y || x' != x) ==> h[y'][x'] == g[y'][x']
  {
    g[y := g[y][x := p]]
  }

  /**
   * The test `board[0][x] !== null`: the top cell of the column is occupied. A column
   * outside the board reads `undefined`, which is not `null`, so it counts as full.
   */
  predicate ColumnFull(g: Grid, x: int)
    requires WellFormed(g)
    ensures !ColumnFull(g, x) ==> exists r :: IsDropSpot(g, x, r)
  {
    OpenColumnHasDropSpot(g, x);
    !(0 <= x < WIDTH) || g[0][x] != EMPTY
  }

  /** In a column with a free top cell, the upward scan stops at a drop spot. */
  lemma OpenColumnHasDropSpot(g: Grid, x: int)
    requires WellFormed(g)
    ensures 0 <= x < WIDTH && g[0][x] == EMPTY ==> IsDropSpot(g, x, ScanUp(g, x, HEIGHT - 1))
  {
  }

  /** Row r is where a piece dropped into column x comes to rest: empty, with every cell below it occupied. */
  ghost predicate IsDropSpot(g: Grid, x: int, r: int)
    requires WellFormed(g)
  {
    InBounds(r, x) && g[r][x] == EMPTY && forall y :: r < y < HEIGHT ==> g[y][x] != EMPTY
  }

  /** The upward scan of `findSpotForCol`: from `row`, move up while the cell is occupied, stopping at row 0. */
  function ScanUp(g: Grid, x: int, row: int): (r: int)
    requires WellFormed(g) && 0 <= x < WIDTH && 0 <= row < HEIGHT
    ensures 0 <= r <= row
    ensures forall y :: r < y <= row ==> g[y][x] != EMPTY
    ensures r > 0 ==> g[r][x] == EMPTY
    decreases row
  {
    if row > 0 && g[row][x] != EMPTY then ScanUp(g, x, row - 1) else row
  }

  /** `findSpotForCol(x)`: None for a full (or nonexistent) column, otherwise the row the piece lands in. */
  function SpotForCol(g: Grid, x: int): (r: Option<int>)
    requires WellFormed(g)
    ensures r.None? <==> ColumnFull(g, x)
    ensures r.Some? ==> IsDropSpot(g, x, r.value)
  {
    if ColumnFull(g, x) then None else Some(ScanUp(g, x, HEIGHT - 1))
  }

  /** A column has at most one drop spot, so the scan's answer is the only possible one. */
  lemma DropSpotIsUnique(g: Grid, x: int, r: int)
    requires WellFormed(g)
    ensures SpotForCol(g, x) == Some(r) <==> !ColumnFull(g, x) && IsDropSpot(g, x, r)
  {
  }

  /** With no floating pieces, a column in range is full exactly when every one of its cells is occupied. */
  lemma ColumnFullUnderGravity(g: Grid, x: int)
    requires WellFormed(g) && Gravity(g) && 0 <= x < WIDTH
    ensures ColumnFull(g, x) <==> forall y :: 0 <= y < HEIGHT ==> g[y][x] != EMPTY
  {
  }

  /** Dropping a piece at the drop spot keeps every column a contiguous run at the bottom. */
  lemma PlaceAtDropSpotKeepsGravity(g: Grid, x: int, r: int, p: int)
    requires WellFormed(g) && Gravity(g) && IsDropSpot(g, x, r) && p != EMPTY
    ensures Gravity(Place(g, r, x, p))
  {
  }

  /** The top row is full: the source's tie test `board[0].every(value !== null)`. */
  predicate TopRowFull(g: Grid)
    requires WellFormed(g)
    ensures TopRowFull(g) ==> forall x :: ColumnFull(g, x)
  {
    forall x :: 0 <= x < WIDTH ==> g[0][x] != EMPTY
  }

  /** With no floating pieces, a full top row means a full board, which is what makes the tie test sound. */
  lemma TopRowFullMeansBoardFull(g: Grid)
    requires WellFormed(g) && Gravity(g)
    ensures TopRowFull(g) <==> forall y, x :: InBounds(y, x) ==> g[y][x] != EMPTY
  {
    if TopRowFull(g) {
      forall y, x | InBounds(y, x) ensures g[y][x] != EMPTY {
        if y > 0 {
          assert g[0][x] != EMPTY;
        }
      }
    }
  }
}
