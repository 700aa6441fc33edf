/**
  The automaton core of the Game of Life: a fixed `rows` x `cols` grid of
  booleans on a torus, the wrap-around count of live neighbours, and the
  B3/S23 generation step, which reads only the old grid and builds a new one.
 */
module Life {
  import opened Torus

  /** The simulation's state: the dimensions it was built with and the cells.
      Rendering-only settings (cell size, colours) are not part of the core. */
  datatype Game = Game(rows: int, cols: int, cells: seq<seq<bool>>)

  /** Number of rows the grid holds: `range(rows)` is empty for rows <= 0. */
  function Height(g: Game): nat {
    if g.rows > 0 then g.rows else 0
  }

  /** Number of cells in each row. */
  function Width(g: Game): nat {
    if g.cols > 0 then g.cols else 0
  }

  /** The cells form exactly Height rows of exactly Width cells. */
  predicate WellFormed(g: Game) {
    && |g.cells| == Height(g)
    && forall x :: 0 <= x < |g.cells| ==> |g.cells[x]| == Width(g)
  }

  /** A grid the neighbour count can be taken on: both dimensions are positive,
      so every coordinate can be reduced onto the torus. */
  predicate Toroidal(g: Game) {
    WellFormed(g) && g.rows > 0 && g.cols > 0
  }

  /** Every cell is dead. */
  predicate AllDead(g: Game)
    requires WellFormed(g)
  {
    forall x, y :: 0 <= x < Height(g) && 0 <= y < Width(g) ==> !g.cells[x][y]
  }

  /** Construction: a grid of `rows` rows of `cols` dead cells. */
  function Init(rows: int, cols: int): (g: Game)
    ensures g.rows == rows && g.cols == cols
    ensures WellFormed(g)
    ensures rows >= 0 ==> |g.cells| == rows
    ensures forall x :: 0 <= x < |g.cells| ==> (cols >= 0 ==> |g.cells[x]| == cols)
    ensures forall x, y :: 0 <= x < Height(g) && 0 <= y < Width(g) ==> !g.cells[x][y]
  {
    var h := if rows > 0 then rows else 0;
    var w := if cols > 0 then cols else 0;
    Game(rows, cols, seq(h, _ => seq(w, _ => false)))
  }

  /** The cell at offset (dx, dy) from (i, j), both coordinates reduced onto the torus. */
  function Peek(g: Game, i: int, j: int, dx: int, dy: int): bool
    requires Toroidal(g)
  {
    g.cells[Wrap(i + dx, g.rows)][Wrap(j + dy, g.cols)]
  }

  /** Number of offsets in the 3 x 3 window around a cell. */
  const WindowSize: nat := 9

  /** The k-th raw offset of the window, in the order the two nested loops
      visit them: row offset outer, column offset inner. */
  function Offset(k: nat): (d: (int, int))
    requires k < WindowSize
    ensures -1 <= d.0 <= 1 && -1 <= d.1 <= 1
    ensures k == 3 * (d.0 + 1) + (d.1 + 1)
  {
    if k < 3 then (-1, k - 1) else if k < 6 then (0, k - 4) else (1, k - 7)
  }

  /** The window position of the cell itself. */
  const Centre: nat := 4

  /** One for true, zero for false. */
  function Ind(b: bool): nat {
    if b then 1 else 0
  }

  /** Whether the loops skip offset `d` of the window around row `i`. The skip
      test compares the raw column with `j`, but the row it compares with `i`
      is the one the previous pass of the column loop already reduced modulo
      `rows`; only the first pass sees the raw row, and its column differs from
      `j` anyway. So an offset is skipped exactly when its column offset is 0
      and its reduced row is `i`: for a row index in range that is the cell
      itself, and on a one-row grid also the cells above and below it. */
  predicate Skipped(g: Game, i: int, d: (int, int))
    requires g.rows > 0
  {
    d.1 == 0 && Wrap(i + d.0, g.rows) == i
  }

  /** What offset `d` adds to the count at (i, j): nothing when it is skipped,
      otherwise one for a live wrapped cell. */
  function Term(g: Game, i: int, j: int, d: (int, int)): nat
    requires Toroidal(g)
  {
    if Skipped(g, i, d) then 0 else Ind(Peek(g, i, j, d.0, d.1))
  }

  /** Live cells counted among the first `k` offsets of the window. Every
      offset adds at most one; for a row index in range the centre is skipped,
      so once it has been passed the count is below the number of offsets. */
  function CountPrefix(g: Game, i: int, j: int, k: nat): (n: nat)
    requires Toroidal(g)
    requires k <= WindowSize
    ensures n <= k
    ensures 0 <= i < g.rows && k > Centre ==> n < k
  {
    if k == 0 then 0 else CountPrefix(g, i, j, k - 1) + Term(g, i, j, Offset(k - 1))
  }

  /** The count the simulation computes for (i, j): at most eight for the rows
      it is called on, and at most nine for any row index. */
  function CountNeighbours(g: Game, i: int, j: int): (n: nat)
    requires Toroidal(g)
    ensures n <= WindowSize
    ensures 0 <= i < g.rows ==> n <= 8
  {
    CountPrefix(g, i, j, WindowSize)
  }

  /** The B3/S23 rule: a live cell survives with two or three live neighbours,
      a dead cell is born with exactly three. */
  function NextState(alive: bool, n: int): (r: bool)
    ensures r ==> n == 2 || n == 3
    ensures n == 3 ==> r
    ensures alive && n == 2 ==> r
    ensures !alive && r ==> n == 3
  {
    if alive then n == 2 || n == 3 else n == 3
  }

  /** One generation. Every new cell is computed from the old grid only; the
      result replaces the grid as a whole. */
  function Step(g: Game): (r: Game)
    requires WellFormed(g)
    ensures r.rows == g.rows && r.cols == g.cols
    ensures WellFormed(r)
    ensures forall x, y :: 0 <= x < Height(g) && 0 <= y < Width(g) && g.cells[x][y] ==>
      (r.cells[x][y] <==> CountNeighbours(g, x, y) == 2 || CountNeighbours(g, x, y) == 3)
    ensures forall x, y :: 0 <= x < Height(g) && 0 <= y < Width(g) && !g.cells[x][y] ==>
      (r.cells[x][y] <==> CountNeighbours(g, x, y) == 3)
  {
    Game(g.rows, g.cols,
      seq(Height(g), x requires 0 <= x < Height(g) =>
        seq(Width(g), y requires 0 <= y < Width(g) =>
          NextState(g.cells[x][y], CountNeighbours(g, x, y)))))
  }

  /** Probability with which a reseed makes a cell alive. */
  const LiveProbability: real := 0.08

  /** Reseeding, with the process-wide random source made explicit: `draws[x][y]`
      is the value the uniform generator yields when the row-major sweep reaches
      cell (x, y). The old cells are all overwritten. */
  function Reset(g: Game, draws: seq<seq<real>>): (r: Game)
    requires WellFormed(g)
    requires |draws| == Height(g)
    requires forall x :: 0 <= x < |draws| ==> |draws[x]| == Width(g)
    ensures r.rows == g.rows && r.cols == g.cols
    ensures WellFormed(r)
    ensures forall x, y :: 0 <= x < Height(g) && 0 <= y < Width(g) ==>
      (r.cells[x][y] <==> draws[x][y] < LiveProbability)
  {
    Game(g.rows, g.cols,
      seq(Height(g), x requires 0 <= x < Height(g) =>
        seq(Width(g), y requires 0 <= y < Width(g) => draws[x][y] < LiveProbability)))
  }
}
