/**
  Properties of the generation step: it reads only the pre-step grid, the
  all-dead grid is a fixed point, and any run of steps and reseeds keeps the
  grid's dimensions.
 */
module Dynamics {
  import opened Torus
  import opened Life
  import opened Neighbours

  /** The B3/S23 rule, read as a birth set {3} and a survival set {2, 3}:
      under- and overpopulated live cells die, and a dead cell stays dead
      unless it has exactly three live neighbours. */
  lemma RuleCases(alive: bool, n: int)
    ensures alive && n < 2 ==> !NextState(alive, n)
    ensures alive && n > 3 ==> !NextState(alive, n)
    ensures alive && (n == 2 || n == 3) ==> NextState(alive, n)
    ensures !alive ==> (NextState(alive, n) <==> n == 3)
  {
  }

  /** Two grids of the same shape whose cells agree are equal. */
  lemma CellsEqual(g: Game, h: Game)
    requires WellFormed(g) && WellFormed(h)
    requires g.rows == h.rows && g.cols == h.cols
    requires forall x, y :: 0 <= x < Height(g) && 0 <= y < Width(g) ==> g.cells[x][y] == h.cells[x][y]
    ensures g == h
  {
    forall x | 0 <= x < Height(g)
      ensures g.cells[x] == h.cells[x]
    {
    }
  }

  /** The step applies the rule cell by cell, to the old state and the old count. */
  lemma StepCell(g: Game, x: int, y: int)
    requires WellFormed(g)
    requires 0 <= x < Height(g) && 0 <= y < Width(g)
    ensures Toroidal(g)
    ensures Step(g).cells[x][y] == NextState(g.cells[x][y], CountNeighbours(g, x, y))
  {
  }

  /** On a grid of at least two rows the step is the B3/S23 rule applied to
      the intended count of the eight wrapped neighbours. */
  lemma StepFollowsIntendedRule(g: Game, x: int, y: int)
    requires WellFormed(g) && g.rows >= 2
    requires 0 <= x < Height(g) && 0 <= y < Width(g)
    ensures Toroidal(g)
    ensures Step(g).cells[x][y] == NextState(g.cells[x][y], MooreCount(g, x, y))
  {
    StepCell(g, x, y);
    CountByCase(g, x, y);
  }

  /** A row of five with only its middle cell alive. */
  predicate LoneInRow(g: Game) {
    && Toroidal(g) && g.rows == 1 && g.cols == 5
    && forall y :: 0 <= y < 5 ==> (g.cells[0][y] <==> y == 2)
  }

  /** The program's counts along that row: its left and right copies give the
      cells beside the middle one three each, and the middle cell none. */
  lemma LoneInRowCount(g: Game, y: int)
    requires LoneInRow(g) && 0 <= y < 5
    ensures CountNeighbours(g, 0, y) == if y == 1 || y == 3 then 3 else 0
  {
    CountByCase(g, 0, y);
    WrapNear(y - 1, 5);
    WrapNear(y + 1, 5);
  }

  /** Along the row the middle cell dies and the cells beside it are born. */
  lemma LoneInRowCell(g: Game, y: int)
    requires LoneInRow(g) && 0 <= y < 5
    ensures Step(g).cells[0][y] == (y == 1 || y == 3)
  {
    StepCell(g, 0, y);
    LoneInRowCount(g, y);
  }

  /** By the intended count the middle cell sees itself above and below. */
  lemma LoneInRowIntended(g: Game)
    requires LoneInRow(g)
    ensures MooreCount(g, 0, 2) == 2
  {
    MooreExpanded(g, 0, 2);
    WrapNear(1, 5);
    WrapNear(3, 5);
  }

  /** A lone live cell in a row of five has two live neighbours by the
      intended count, its own copies above and below, and would survive. The
      program skips those two, counts none, and the cell dies, while the cells
      beside it are born. */
  lemma LoneCellOnARowDies(g: Game)
    requires LoneInRow(g)
    ensures MooreCount(g, 0, 2) == 2 && NextState(true, 2)
    ensures Step(g) == Game(1, 5, [[false, true, false, true, false]])
  {
    LoneInRowIntended(g);
    var h := Game(1, 5, [[false, true, false, true, false]]);
    forall y | 0 <= y < 5
      ensures Step(g).cells[0][y] == h.cells[0][y]
    {
      LoneInRowCell(g, y);
    }
    CellsEqual(Step(g), h);
  }

  /** The new state of a cell is fixed by its own old state and the old states
      of its eight wrapped neighbours: nothing written during the step is read
      by it, so the order in which cells are computed cannot matter. */
  lemma StepIsLocal(g: Game, h: Game, i: int, j: int)
    requires Toroidal(g) && Toroidal(h)
    requires g.rows == h.rows && g.cols == h.cols
    requires 0 <= i < g.rows && 0 <= j < g.cols
    requires g.cells[i][j] == h.cells[i][j]
    requires SameNeighbourhood(g, h, i, j)
    ensures Step(g).cells[i][j] == Step(h).cells[i][j]
  {
    CountIsLocal(g, h, i, j);
  }

  /** A grid with no live cell has no live neighbour anywhere. */
  lemma DeadGridHasNoNeighbours(g: Game, i: int, j: int)
    requires Toroidal(g) && AllDead(g)
    ensures CountNeighbours(g, i, j) == 0
  {
    MooreExpanded(g, i, j);
    CountByCase(g, i, j);
  }

  /** The all-dead grid is a fixed point of the step. */
  lemma DeadGridIsFixed(g: Game)
    requires WellFormed(g) && AllDead(g)
    ensures Step(g) == g
  {
    forall x, y | 0 <= x < Height(g) && 0 <= y < Width(g)
      ensures Step(g).cells[x][y] == g.cells[x][y]
    {
      DeadGridHasNoNeighbours(g, x, y);
    }
    CellsEqual(Step(g), g);
  }

  /** A freshly constructed simulation does not change when stepped. */
  lemma InitIsFixed(rows: int, cols: int)
    ensures Step(Init(rows, cols)) == Init(rows, cols)
  {
    DeadGridIsFixed(Init(rows, cols));
  }

  /** `k` generations, as the periodic timer would advance them. */
  function StepN(g: Game, k: nat): (r: Game)
    requires WellFormed(g)
    ensures r.rows == g.rows && r.cols == g.cols
    ensures WellFormed(r)
    decreases k
  {
    if k == 0 then g else StepN(Step(g), k - 1)
  }

  /** Two distinct grids that step to each other form an oscillator of period
      two: two steps restore either, one step changes it. */
  lemma PeriodTwo(g: Game, h: Game)
    requires WellFormed(g) && WellFormed(h)
    requires Step(g) == h && Step(h) == g && g != h
    ensures StepN(g, 2) == g && StepN(h, 2) == h
    ensures Step(g) != g && Step(h) != h
  {
    assert StepN(g, 2) == StepN(h, 1) == StepN(g, 0);
    assert StepN(h, 2) == StepN(g, 1) == StepN(h, 0);
  }

  /** A fixed point of the step stays put for any number of generations. */
  lemma {:induction false} FixedPointForever(g: Game, k: nat)
    requires WellFormed(g) && Step(g) == g
    ensures StepN(g, k) == g
  {
    if k > 0 {
      FixedPointForever(g, k - 1);
    }
  }

  /** A reseed whose every draw reaches the live probability leaves every cell
      dead, exactly as construction leaves it. */
  lemma QuietReseedClears(g: Game, draws: seq<seq<real>>)
    requires WellFormed(g)
    requires |draws| == Height(g)
    requires forall x :: 0 <= x < |draws| ==> |draws[x]| == Width(g)
    requires forall x, y :: 0 <= x < Height(g) && 0 <= y < Width(g) ==> draws[x][y] >= LiveProbability
    ensures Reset(g, draws) == Init(g.rows, g.cols)
  {
    CellsEqual(Reset(g, draws), Init(g.rows, g.cols));
  }

  /** What drives the engine: the periodic tick steps it, a reseed overwrites
      it with the given draws. */
  datatype Event = Tick | Reseed(draws: seq<seq<real>>)

  /** A reseed's draws cover an h x w grid exactly. */
  predicate Fits(e: Event, h: nat, w: nat) {
    e.Reseed? ==> |e.draws| == h && forall x :: 0 <= x < h ==> |e.draws[x]| == w
  }

  /** The engine's state after a sequence of events. */
  function Run(g: Game, events: seq<Event>): (r: Game)
    requires WellFormed(g)
    requires forall k :: 0 <= k < |events| ==> Fits(events[k], Height(g), Width(g))
    ensures r.rows == g.rows && r.cols == g.cols
    ensures WellFormed(r)
    decreases |events|
  {
    if events == [] then g
    else
      assert Fits(events[0], Height(g), Width(g));
      var next := match events[0]
        case Tick => Step(g)
        case Reseed(draws) => Reset(g, draws);
      assert forall k :: 0 <= k < |events| - 1 ==> events[1..][k] == events[k + 1];
      Run(next, events[1..])
  }
}
