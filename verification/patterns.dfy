/**
  Classic patterns on the torus: the 2 x 2 block is a still life anywhere on a
  torus of at least 4 x 4, a lone cell on a 5 x 5 torus dies, and the
  three-cell blinker on a 5 x 5 torus flips between its horizontal and
  vertical phases. Patterns on the 5 x 5 torus are built from the two rings of
  five `IsDot` (only the middle marked) and `IsBar` (the middle three marked).
 */
module Patterns {
  import opened Torus
  import opened Life
  import opened Neighbours
  import opened Dynamics

  /** The grid whose live cells are the rows marked in `a` crossed with the
      columns marked in `b`; blocks and blinkers are of this shape. */
  function Product(a: seq<bool>, b: seq<bool>): (g: Game)
    requires |a| > 0 && |b| > 0
    ensures Toroidal(g) && g.rows == |a| && g.cols == |b|
    ensures forall x, y :: 0 <= x < |a| && 0 <= y < |b| ==> (g.cells[x][y] <==> a[x] && b[y])
  {
    Game(|a|, |b|, seq(|a|, x requires 0 <= x < |a| => seq(|b|, y requires 0 <= y < |b| => a[x] && b[y])))
  }

  /** Marked positions among x - 1, x, x + 1 on the ring of |a|. */
  function Around(a: seq<bool>, x: int): nat
    requires 0 <= x < |a|
  {
    Ind(a[Wrap(x - 1, |a|)]) + Ind(a[x]) + Ind(a[Wrap(x + 1, |a|)])
  }

  /** On a product grid of at least two rows the count factors row by row:
      each marked row among i - 1, i, i + 1 contributes the marked columns
      around j, except that (i, j) itself is not counted. On a one-row grid
      only the columns beside j count, three times over. */
  lemma ProductCount(a: seq<bool>, b: seq<bool>, i: int, j: int)
    requires 0 <= i < |a| && 0 <= j < |b|
    ensures |a| >= 2 ==> (CountNeighbours(Product(a, b), i, j) ==
      (if a[Wrap(i - 1, |a|)] then Around(b, j) else 0) +
      (if a[i] then Around(b, j) - Ind(b[j]) else 0) +
      (if a[Wrap(i + 1, |a|)] then Around(b, j) else 0))
    ensures |a| == 1 ==> (CountNeighbours(Product(a, b), i, j) ==
      if a[0] then 3 * (Around(b, j) - Ind(b[j])) else 0)
  {
    var g := Product(a, b);
    MooreExpanded(g, i, j);
    CountByCase(g, i, j);
    var u, m, d := a[Wrap(i - 1, |a|)], a[i], a[Wrap(i + 1, |a|)];
    var l, c, r := b[Wrap(j - 1, |b|)], b[j], b[Wrap(j + 1, |b|)];
    assert Peek(g, i, j, -1, -1) == (u && l);
    assert Peek(g, i, j, -1, 0) == (u && c);
    assert Peek(g, i, j, -1, 1) == (u && r);
    assert Peek(g, i, j, 0, -1) == (m && l);
    assert Peek(g, i, j, 0, 1) == (m && r);
    assert Peek(g, i, j, 1, -1) == (d && l);
    assert Peek(g, i, j, 1, 0) == (d && c);
    assert Peek(g, i, j, 1, 1) == (d && r);
  }

  /** Positions r and r + 1 marked on a ring of n. */
  function Band(n: int, r: int): (a: seq<bool>)
    requires n > 0
    ensures |a| == n
  {
    seq(n, x => x == r || x == Wrap(r + 1, n))
  }

  /** On a ring of at least four, a band position has exactly one band position
      among its two neighbours, and any other position has at most one. */
  lemma BandNeighbours(n: int, r: int, i: int)
    requires n >= 4 && 0 <= r < n && 0 <= i < n
    ensures Band(n, r)[i] ==> Band(n, r)[Wrap(i - 1, n)] != Band(n, r)[Wrap(i + 1, n)]
    ensures !Band(n, r)[i] ==> !(Band(n, r)[Wrap(i - 1, n)] && Band(n, r)[Wrap(i + 1, n)])
    ensures Band(n, r)[i] ==> Around(Band(n, r), i) == 2
    ensures !Band(n, r)[i] ==> Around(Band(n, r), i) <= 1
  {
    WrapNear(i - 1, n);
    WrapNear(i + 1, n);
    WrapNear(r + 1, n);
  }

  /** The 2 x 2 block with top-left cell (r, c), placed anywhere on the torus. */
  function Block(rows: int, cols: int, r: int, c: int): (g: Game)
    requires rows > 0 && cols > 0
    ensures Toroidal(g) && g.rows == rows && g.cols == cols
  {
    Product(Band(rows, r), Band(cols, c))
  }

  /** Inside the block every cell has three live neighbours; outside it no cell
      has more than two. */
  lemma BlockCount(rows: int, cols: int, r: int, c: int, i: int, j: int)
    requires rows >= 4 && cols >= 4
    requires 0 <= r < rows && 0 <= c < cols
    requires 0 <= i < rows && 0 <= j < cols
    ensures Block(rows, cols, r, c).cells[i][j] ==> CountNeighbours(Block(rows, cols, r, c), i, j) == 3
    ensures !Block(rows, cols, r, c).cells[i][j] ==> CountNeighbours(Block(rows, cols, r, c), i, j) <= 2
  {
    ProductCount(Band(rows, r), Band(cols, c), i, j);
    BandNeighbours(rows, r, i);
    BandNeighbours(cols, c, j);
  }

  /** The block is a still life on any torus of at least 4 x 4. */
  lemma BlockIsStill(rows: int, cols: int, r: int, c: int)
    requires rows >= 4 && cols >= 4
    requires 0 <= r < rows && 0 <= c < cols
    ensures Step(Block(rows, cols, r, c)) == Block(rows, cols, r, c)
  {
    var g := Block(rows, cols, r, c);
    forall x, y | 0 <= x < rows && 0 <= y < cols
      ensures Step(g).cells[x][y] == g.cells[x][y]
    {
      BlockCount(rows, cols, r, c, x, y);
    }
    CellsEqual(Step(g), g);
  }

  /** The block survives unchanged for any number of generations. */
  lemma BlockIsStillForever(rows: int, cols: int, r: int, c: int, k: nat)
    requires rows >= 4 && cols >= 4
    requires 0 <= r < rows && 0 <= c < cols
    ensures StepN(Block(rows, cols, r, c), k) == Block(rows, cols, r, c)
  {
    BlockIsStill(rows, cols, r, c);
    FixedPointForever(Block(rows, cols, r, c), k);
  }

  /** The step on a product grid, cell by cell. */
  lemma ProductStep(a: seq<bool>, b: seq<bool>, x: int, y: int)
    requires |a| >= 2
    requires 0 <= x < |a| && 0 <= y < |b|
    ensures Step(Product(a, b)).cells[x][y] == NextState(a[x] && b[y],
      (if a[Wrap(x - 1, |a|)] then Around(b, y) else 0) +
      (if a[x] then Around(b, y) - Ind(b[y]) else 0) +
      (if a[Wrap(x + 1, |a|)] then Around(b, y) else 0))
  {
    ProductCount(a, b, x, y);
    StepCell(Product(a, b), x, y);
  }

  /** A ring of five with its three middle positions marked. */
  predicate IsBar(a: seq<bool>) {
    |a| == 5 && forall i :: 0 <= i < 5 ==> (a[i] <==> 1 <= i <= 3)
  }

  /** A ring of five with only its middle position marked. */
  predicate IsDot(a: seq<bool>) {
    |a| == 5 && forall i :: 0 <= i < 5 ==> (a[i] <==> i == 2)
  }

  /** Neighbouring marks on a bar and on a dot, across the wrap. */
  lemma RingOfFive(a: seq<bool>, x: int)
    requires |a| == 5 && 0 <= x < 5
    ensures IsBar(a) ==> (a[Wrap(x - 1, 5)] <==> 2 <= x <= 4) && (a[Wrap(x + 1, 5)] <==> 0 <= x <= 2)
    ensures IsBar(a) ==> Around(a, x) == if x == 2 then 3 else if x == 1 || x == 3 then 2 else 1
    ensures IsDot(a) ==> (a[Wrap(x - 1, 5)] <==> x == 3) && (a[Wrap(x + 1, 5)] <==> x == 1)
    ensures IsDot(a) ==> Around(a, x) == if 1 <= x <= 3 then 1 else 0
  {
    WrapNear(x - 1, 5);
    WrapNear(x + 1, 5);
  }

  /** In the horizontal phase, the middle column's cells in rows 1 .. 3 have
      two or three live neighbours and are alive next, and no other cell is. */
  lemma HorizontalCell(bar: seq<bool>, dot: seq<bool>, x: int, y: int)
    requires IsBar(bar) && IsDot(dot)
    requires 0 <= x < 5 && 0 <= y < 5
    ensures Step(Product(dot, bar)).cells[x][y] == Product(bar, dot).cells[x][y]
  {
    ProductStep(dot, bar, x, y);
    RingOfFive(dot, x);
    RingOfFive(bar, y);
  }

  /** In the vertical phase, the middle row's cells in columns 1 .. 3 are
      alive next, and no other cell is. */
  lemma VerticalCell(bar: seq<bool>, dot: seq<bool>, x: int, y: int)
    requires IsBar(bar) && IsDot(dot)
    requires 0 <= x < 5 && 0 <= y < 5
    ensures Step(Product(bar, dot)).cells[x][y] == Product(dot, bar).cells[x][y]
  {
    ProductStep(bar, dot, x, y);
    RingOfFive(bar, x);
    RingOfFive(dot, y);
  }

  /** Each phase of the blinker on a 5 x 5 torus steps to the other: the
      horizontal bar (middle row, columns 1 .. 3) becomes the vertical one
      (middle column, rows 1 .. 3), and back. */
  lemma BlinkerFlips(bar: seq<bool>, dot: seq<bool>)
    requires IsBar(bar) && IsDot(dot)
    ensures Step(Product(dot, bar)) == Product(bar, dot)
    ensures Step(Product(bar, dot)) == Product(dot, bar)
  {
    forall x, y | 0 <= x < 5 && 0 <= y < 5
      ensures Step(Product(dot, bar)).cells[x][y] == Product(bar, dot).cells[x][y]
      ensures Step(Product(bar, dot)).cells[x][y] == Product(dot, bar).cells[x][y]
    {
      HorizontalCell(bar, dot, x, y);
      VerticalCell(bar, dot, x, y);
    }
    CellsEqual(Step(Product(dot, bar)), Product(bar, dot));
    CellsEqual(Step(Product(bar, dot)), Product(dot, bar));
  }

  /** The blinker oscillates with period two: two steps restore each phase,
      and one step does not. */
  lemma BlinkerOscillates(bar: seq<bool>, dot: seq<bool>)
    requires IsBar(bar) && IsDot(dot)
    ensures StepN(Product(dot, bar), 2) == Product(dot, bar)
    ensures StepN(Product(bar, dot), 2) == Product(bar, dot)
    ensures Step(Product(dot, bar)) != Product(dot, bar)
  {
    BlinkerFlips(bar, dot);
    assert Product(dot, bar).cells[2][1] != Product(bar, dot).cells[2][1];
    PeriodTwo(Product(dot, bar), Product(bar, dot));
  }

  /** A lone live cell in the middle of a 5 x 5 torus has no live neighbour
      and dies of underpopulation, leaving the all-dead grid. */
  lemma LoneCellDies(dot: seq<bool>)
    requires IsDot(dot)
    ensures Step(Product(dot, dot)) == Init(5, 5)
  {
    forall x, y | 0 <= x < 5 && 0 <= y < 5
      ensures !Step(Product(dot, dot)).cells[x][y]
    {
      ProductStep(dot, dot, x, y);
      RingOfFive(dot, x);
      RingOfFive(dot, y);
    }
    CellsEqual(Step(Product(dot, dot)), Init(5, 5));
  }
}
