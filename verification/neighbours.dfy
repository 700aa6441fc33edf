/**
  Properties of the toroidal neighbour count. The count the loops compute
  (`CountNeighbours`) is compared with the intended count (`MooreCount`): the
  number of live neighbours of the cell, that is, the live cells among its
  eight wrapped neighbours. The two agree on every grid of at least two rows
  for the rows the step visits, and differ on one-row grids and for row
  indices outside the grid. Also: the intended count as the size of a set of
  offsets, locality, and independence from the centre cell on tori at least
  2 x 2.
 */
module Neighbours {
  import opened Torus
  import opened Life

  /** What offset `d` adds to the intended count: nothing for the cell itself,
      one for a live neighbour. */
  function MooreTerm(g: Game, i: int, j: int, d: (int, int)): nat
    requires Toroidal(g)
  {
    if d == (0, 0) then 0 else Ind(Peek(g, i, j, d.0, d.1))
  }

  /** The intended count over the first `k` offsets of the window. */
  function MoorePrefix(g: Game, i: int, j: int, k: nat): (n: nat)
    requires Toroidal(g)
    requires k <= WindowSize
    ensures n <= k
    ensures k > Centre ==> n < k
  {
    if k == 0 then 0 else MoorePrefix(g, i, j, k - 1) + MooreTerm(g, i, j, Offset(k - 1))
  }

  /** The intended count: live cells among the eight wrapped neighbours of
      (i, j), the cell itself excluded whatever its coordinates. */
  function MooreCount(g: Game, i: int, j: int): (n: nat)
    requires Toroidal(g)
    ensures n <= 8
  {
    MoorePrefix(g, i, j, WindowSize)
  }

  /** The intended count is the sum over the eight offsets other than (0, 0). */
  lemma MooreExpanded(g: Game, i: int, j: int)
    requires Toroidal(g)
    ensures MooreCount(g, i, j) ==
      Ind(Peek(g, i, j, -1, -1)) + Ind(Peek(g, i, j, -1, 0)) + Ind(Peek(g, i, j, -1, 1)) +
      Ind(Peek(g, i, j, 0, -1)) + Ind(Peek(g, i, j, 0, 1)) +
      Ind(Peek(g, i, j, 1, -1)) + Ind(Peek(g, i, j, 1, 0)) + Ind(Peek(g, i, j, 1, 1))
  {
    assert MoorePrefix(g, i, j, 1) == Ind(Peek(g, i, j, -1, -1));
    assert MoorePrefix(g, i, j, 2) == MoorePrefix(g, i, j, 1) + Ind(Peek(g, i, j, -1, 0));
    assert MoorePrefix(g, i, j, 3) == MoorePrefix(g, i, j, 2) + Ind(Peek(g, i, j, -1, 1));
    assert MoorePrefix(g, i, j, 4) == MoorePrefix(g, i, j, 3) + Ind(Peek(g, i, j, 0, -1));
    assert MoorePrefix(g, i, j, 5) == MoorePrefix(g, i, j, 4);
    assert MoorePrefix(g, i, j, 6) == MoorePrefix(g, i, j, 5) + Ind(Peek(g, i, j, 0, 1));
    assert MoorePrefix(g, i, j, 7) == MoorePrefix(g, i, j, 6) + Ind(Peek(g, i, j, 1, -1));
    assert MoorePrefix(g, i, j, 8) == MoorePrefix(g, i, j, 7) + Ind(Peek(g, i, j, 1, 0));
    assert MoorePrefix(g, i, j, 9) == MoorePrefix(g, i, j, 8) + Ind(Peek(g, i, j, 1, 1));
  }

  /** Which offsets of the middle column the loops skip: none for a row index
      outside the grid; for one inside, the cell itself and, on a one-row grid,
      also the cells above and below it. */
  lemma SkippedCases(g: Game, i: int, dx: int)
    requires g.rows > 0 && -1 <= dx <= 1
    ensures Skipped(g, i, (dx, 0)) <==> 0 <= i < g.rows && (dx == 0 || g.rows == 1)
  {
    if 0 <= i < g.rows {
      WrapNear(i + dx, g.rows);
    }
  }

  /** The program's count as the sum of what the nine window offsets add. */
  lemma CountWindow(g: Game, i: int, j: int)
    requires Toroidal(g)
    ensures CountNeighbours(g, i, j) ==
      Term(g, i, j, (-1, -1)) + Term(g, i, j, (-1, 0)) + Term(g, i, j, (-1, 1)) +
      Term(g, i, j, (0, -1)) + Term(g, i, j, (0, 0)) + Term(g, i, j, (0, 1)) +
      Term(g, i, j, (1, -1)) + Term(g, i, j, (1, 0)) + Term(g, i, j, (1, 1))
  {
    assert CountPrefix(g, i, j, 1) == Term(g, i, j, (-1, -1));
    assert CountPrefix(g, i, j, 2) == CountPrefix(g, i, j, 1) + Term(g, i, j, (-1, 0));
    assert CountPrefix(g, i, j, 3) == CountPrefix(g, i, j, 2) + Term(g, i, j, (-1, 1));
    assert CountPrefix(g, i, j, 4) == CountPrefix(g, i, j, 3) + Term(g, i, j, (0, -1));
    assert CountPrefix(g, i, j, 5) == CountPrefix(g, i, j, 4) + Term(g, i, j, (0, 0));
    assert CountPrefix(g, i, j, 6) == CountPrefix(g, i, j, 5) + Term(g, i, j, (0, 1));
    assert CountPrefix(g, i, j, 7) == CountPrefix(g, i, j, 6) + Term(g, i, j, (1, -1));
    assert CountPrefix(g, i, j, 8) == CountPrefix(g, i, j, 7) + Term(g, i, j, (1, 0));
    assert CountPrefix(g, i, j, 9) == CountPrefix(g, i, j, 8) + Term(g, i, j, (1, 1));
  }

  /** The program's count, case by case. With at least two rows and a row
      index in range it is the intended count. On a one-row grid the cells
      above and below are skipped like the cell itself, leaving the three
      copies of the left and of the right neighbour. For a row index outside
      the grid nothing is skipped, so the wrapped cell itself is counted too. */
  lemma CountByCase(g: Game, i: int, j: int)
    requires Toroidal(g)
    ensures g.rows >= 2 && 0 <= i < g.rows ==> CountNeighbours(g, i, j) == MooreCount(g, i, j)
    ensures g.rows == 1 && i == 0 ==>
      CountNeighbours(g, i, j) == 3 * (Ind(Peek(g, i, j, 0, -1)) + Ind(Peek(g, i, j, 0, 1)))
    ensures !(0 <= i < g.rows) ==>
      CountNeighbours(g, i, j) == MooreCount(g, i, j) + Ind(Peek(g, i, j, 0, 0))
  {
    CountWindow(g, i, j);
    MooreExpanded(g, i, j);
    SkippedCases(g, i, -1);
    SkippedCases(g, i, 0);
    SkippedCases(g, i, 1);
    if g.rows == 1 && i == 0 {
      assert Term(g, i, j, (-1, 0)) == 0 && Term(g, i, j, (0, 0)) == 0 && Term(g, i, j, (1, 0)) == 0;
      assert Peek(g, i, j, -1, -1) == Peek(g, i, j, 0, -1) == Peek(g, i, j, 1, -1);
      assert Peek(g, i, j, -1, 1) == Peek(g, i, j, 0, 1) == Peek(g, i, j, 1, 1);
    }
  }

  /** On a grid where every cell is alive the intended count is eight on any
      torus; the program counts eight for a row in range on a grid of at least
      two rows, six on a one-row grid and nine for a row outside the grid. */
  lemma FullGridCount(g: Game, i: int, j: int)
    requires Toroidal(g)
    requires forall x, y :: 0 <= x < g.rows && 0 <= y < g.cols ==> g.cells[x][y]
    ensures MooreCount(g, i, j) == 8
    ensures CountNeighbours(g, i, j) ==
      if !(0 <= i < g.rows) then 9 else if g.rows == 1 then 6 else 8
  {
    MooreExpanded(g, i, j);
    CountByCase(g, i, j);
  }

  /** The offsets (dx, dy) != (0, 0) whose wrapped cell is alive. */
  function LiveOffsets(g: Game, i: int, j: int): set<(int, int)>
    requires Toroidal(g)
  {
    set dx, dy | -1 <= dx <= 1 && -1 <= dy <= 1 && (dx, dy) != (0, 0) && Peek(g, i, j, dx, dy) :: (dx, dy)
  }

  /** The live offsets among the first k the loops visit. */
  function LivePrefix(g: Game, i: int, j: int, k: nat): set<(int, int)>
    requires Toroidal(g)
    requires k <= WindowSize
  {
    set m | 0 <= m < k && MooreTerm(g, i, j, Offset(m)) == 1 :: Offset(m)
  }

  /** Extending the prefix by one offset adds that offset exactly when it is a
      live neighbour; it was not in the prefix before, since offsets are distinct. */
  lemma LivePrefixStep(g: Game, i: int, j: int, k: nat)
    requires Toroidal(g)
    requires k < WindowSize
    ensures Offset(k) !in LivePrefix(g, i, j, k)
    ensures LivePrefix(g, i, j, k + 1) ==
      LivePrefix(g, i, j, k) + (if MooreTerm(g, i, j, Offset(k)) == 1 then {Offset(k)} else {})
  {
    var d := Offset(k);
    forall m | 0 <= m < k
      ensures Offset(m) != d
    {
    }
    var before := LivePrefix(g, i, j, k);
    var after := LivePrefix(g, i, j, k + 1);
    forall e | e in after
      ensures e in before || (e == d && MooreTerm(g, i, j, d) == 1)
    {
      var m :| 0 <= m < k + 1 && MooreTerm(g, i, j, Offset(m)) == 1 && Offset(m) == e;
      if m < k {
        assert e in before;
      }
    }
  }

  lemma {:induction false} MoorePrefixIsCardinality(g: Game, i: int, j: int, k: nat)
    requires Toroidal(g)
    requires k <= WindowSize
    ensures MoorePrefix(g, i, j, k) == |LivePrefix(g, i, j, k)|
  {
    if k == 0 {
      assert LivePrefix(g, i, j, 0) == {};
    } else {
      MoorePrefixIsCardinality(g, i, j, k - 1);
      LivePrefixStep(g, i, j, k - 1);
      var d := Offset(k - 1);
      assert MoorePrefix(g, i, j, k) == MoorePrefix(g, i, j, k - 1) + MooreTerm(g, i, j, d);
    }
  }

  /** The live offsets are those the loops find among all nine positions. */
  lemma LiveOffsetsInLoopOrder(g: Game, i: int, j: int)
    requires Toroidal(g)
    ensures LiveOffsets(g, i, j) == LivePrefix(g, i, j, WindowSize)
  {
    var all := LiveOffsets(g, i, j);
    var found := LivePrefix(g, i, j, WindowSize);
    forall d | d in all
      ensures d in found
    {
      var m := 3 * (d.0 + 1) + (d.1 + 1);
      assert Offset(m) == d;
    }
    forall d | d in found
      ensures d in all
    {
      var m :| 0 <= m < WindowSize && MooreTerm(g, i, j, Offset(m)) == 1 && Offset(m) == d;
    }
  }

  /** The intended count is exactly the number of offsets (dx, dy) != (0, 0)
      whose wrapped cell is alive, every border and corner treated alike; the
      program's count is that number too on every grid of at least two rows,
      for every row in range. */
  lemma CountIsCardinality(g: Game, i: int, j: int)
    requires Toroidal(g)
    ensures MooreCount(g, i, j) == |LiveOffsets(g, i, j)|
    ensures g.rows >= 2 && 0 <= i < g.rows ==> CountNeighbours(g, i, j) == |LiveOffsets(g, i, j)|
  {
    MoorePrefixIsCardinality(g, i, j, WindowSize);
    LiveOffsetsInLoopOrder(g, i, j);
    CountByCase(g, i, j);
  }

  /** g and h agree on the eight wrapped neighbours of (i, j). */
  ghost predicate SameNeighbourhood(g: Game, h: Game, i: int, j: int)
    requires Toroidal(g) && Toroidal(h)
  {
    forall dx, dy :: -1 <= dx <= 1 && -1 <= dy <= 1 && (dx, dy) != (0, 0) ==>
      Peek(g, i, j, dx, dy) == Peek(h, i, j, dx, dy)
  }

  /** The intended count reads nothing but the eight wrapped neighbours. The
      program's count also depends on the number of rows, which decides what
      is skipped, and for a row outside the grid it reads the wrapped cell
      itself as well. */
  lemma CountIsLocal(g: Game, h: Game, i: int, j: int)
    requires Toroidal(g) && Toroidal(h)
    requires SameNeighbourhood(g, h, i, j)
    ensures MooreCount(g, i, j) == MooreCount(h, i, j)
    ensures g.rows == h.rows && (0 <= i < g.rows || Peek(g, i, j, 0, 0) == Peek(h, i, j, 0, 0)) ==>
      CountNeighbours(g, i, j) == CountNeighbours(h, i, j)
  {
    MooreExpanded(g, i, j);
    MooreExpanded(h, i, j);
    CountByCase(g, i, j);
    CountByCase(h, i, j);
  }

  /** The grid with cell (x, y) set to v. */
  function SetCell(g: Game, x: int, y: int, v: bool): (r: Game)
    requires WellFormed(g)
    requires 0 <= x < Height(g) && 0 <= y < Width(g)
    ensures r.rows == g.rows && r.cols == g.cols && WellFormed(r)
    ensures r.cells[x][y] == v
    ensures forall a, b :: 0 <= a < Height(g) && 0 <= b < Width(g) && (a, b) != (x, y) ==>
      r.cells[a][b] == g.cells[a][b]
  {
    g.(cells := g.cells[x := g.cells[x][y := v]])
  }

  /** On a torus with at least two rows and two columns no neighbour offset
      wraps back onto the cell itself, so the cell's own state does not enter
      its count. */
  lemma CountIgnoresCentre(g: Game, i: int, j: int, v: bool)
    requires Toroidal(g) && g.rows >= 2 && g.cols >= 2
    requires 0 <= i < g.rows && 0 <= j < g.cols
    ensures CountNeighbours(SetCell(g, i, j, v), i, j) == CountNeighbours(g, i, j)
  {
    var h := SetCell(g, i, j, v);
    forall dx, dy | -1 <= dx <= 1 && -1 <= dy <= 1 && (dx, dy) != (0, 0)
      ensures Peek(g, i, j, dx, dy) == Peek(h, i, j, dx, dy)
    {
      WrapNear(i + dx, g.rows);
      WrapNear(j + dy, g.cols);
    }
    CountIsLocal(g, h, i, j);
  }

  /** On a 1 x 1 grid every offset wraps onto the cell itself, so the intended
      count of a live cell is eight. The program counts six: the cells above
      and below are skipped like the cell itself. */
  lemma CentreAliasesOnThinTorus()
    ensures MooreCount(Game(1, 1, [[true]]), 0, 0) == 8
    ensures CountNeighbours(Game(1, 1, [[true]]), 0, 0) == 6
    ensures CountNeighbours(Game(1, 1, [[false]]), 0, 0) == 0
  {
    FullGridCount(Game(1, 1, [[true]]), 0, 0);
    CountByCase(Game(1, 1, [[false]]), 0, 0);
  }

  /** On a 3 x 3 grid whose four corners are alive, each other corner wraps
      round to touch (0, 0). */
  lemma CornersTouchAcrossTheWrap()
    ensures CountNeighbours(Game(3, 3, [[true, false, true], [false, false, false], [true, false, true]]), 0, 0) == 3
  {
    var g := Game(3, 3, [[true, false, true], [false, false, false], [true, false, true]]);
    CountByCase(g, 0, 0);
    MooreExpanded(g, 0, 0);
  }
}
