/**
  The simulation's loops as written: the neighbour count walks the 3 x 3
  window with two nested ranges and skips the offsets whose raw column and
  in-place reduced row variable match the cell's coordinates (the cell itself
  for a row inside the grid, and on a one-row grid also the cells above and
  below it; nothing for a row outside the grid), and the update
  fills a fresh all-dead buffer from the old grid before swapping it in.
  Both are proved to compute the functional definitions of the Life module.
 */
module Engine {
  import opened Torus
  import opened Life

  /** The neighbour count, loop by loop. Any row and column are accepted:
      each visited coordinate is reduced onto the torus before the grid is
      read. The row variable is reduced in place, so from the second pass of
      the column loop on the skip test sees the reduced row. */
  method GetLifeNeighbors(g: Game, i: int, j: int) returns (n: nat)
    requires Toroidal(g)
    ensures n == CountNeighbours(g, i, j)
    ensures 0 <= i < g.rows ==> n <= 8
  {
    n := 0;
    ghost var k := 0;
    for x := i - 1 to i + 2
      invariant k == 3 * (x - (i - 1))
      invariant n == CountPrefix(g, i, j, k)
    {
      var row := x;
      for y := j - 1 to j + 2
        invariant k == 3 * (x - (i - 1)) + (y - (j - 1))
        invariant n == CountPrefix(g, i, j, k)
        invariant y == j - 1 ==> row == x
        invariant y != j - 1 ==> row == Wrap(x, g.rows)
      {
        VisitOffset(g, i, j, x, y, row, k);
        k := k + 1;
        if row == i && y == j {
          continue;
        }
        row := Wrap(row, g.rows);
        var col := Wrap(y, g.cols);
        assert CountPrefix(g, i, j, k) == n + Ind(g.cells[row][col]);
        if g.cells[row][col] {
          n := n + 1;
        }
      }
    }
  }

  /** Visiting raw coordinate (x, y), with the row variable as the column loop
      has left it, is the k-th step of the window: it adds one exactly when the
      skip test fails and the wrapped cell is alive. */
  lemma VisitOffset(g: Game, i: int, j: int, x: int, y: int, row: int, k: nat)
    requires Toroidal(g)
    requires i - 1 <= x <= i + 1 && j - 1 <= y <= j + 1
    requires row == if y == j - 1 then x else Wrap(x, g.rows)
    requires k == 3 * (x - (i - 1)) + (y - (j - 1))
    ensures k < WindowSize
    ensures Wrap(row, g.rows) == Wrap(x, g.rows)
    ensures CountPrefix(g, i, j, k + 1) == CountPrefix(g, i, j, k) +
      (if row == i && y == j then 0 else Ind(g.cells[Wrap(row, g.rows)][Wrap(y, g.cols)]))
  {
    assert Offset(k) == (x - i, y - j);
    TermAt(g, i, j, x, y, row);
  }

  /** The skip test on the row variable decides the same offsets as `Skipped`. */
  lemma TermAt(g: Game, i: int, j: int, x: int, y: int, row: int)
    requires Toroidal(g)
    requires row == if y == j - 1 then x else Wrap(x, g.rows)
    ensures Wrap(row, g.rows) == Wrap(x, g.rows)
    ensures Term(g, i, j, (x - i, y - j)) ==
      (if row == i && y == j then 0 else Ind(g.cells[Wrap(row, g.rows)][Wrap(y, g.cols)]))
  {
    var w := Wrap(x, g.rows);
    if y != j - 1 {
      assert Wrap(w, g.rows) == w;
    }
  }

  /** One generation, loop by loop: every count is taken on the old grid `g`,
      every result goes into the fresh buffer, and the buffer becomes the new
      grid only after both loops finish. */
  method Update(g: Game) returns (r: Game)
    requires WellFormed(g)
    ensures r == Step(g)
  {
    ghost var next := Step(g);
    var newCells := Init(g.rows, g.cols).cells;
    for x := 0 to Height(g)
      invariant |newCells| == Height(g)
      invariant forall a :: 0 <= a < Height(g) ==> |newCells[a]| == Width(g)
      invariant forall a :: 0 <= a < x ==> newCells[a] == next.cells[a]
    {
      var row := newCells[x];
      for y := 0 to Width(g)
        invariant |row| == Width(g)
        invariant forall b :: 0 <= b < y ==> row[b] == next.cells[x][b]
      {
        var n := GetLifeNeighbors(g, x, y);
        var alive := if g.cells[x][y] then n == 2 || n == 3 else n == 3;
        assert next.cells[x][y] == NextState(g.cells[x][y], CountNeighbours(g, x, y));
        assert alive == next.cells[x][y];
        row := row[y := alive];
      }
      newCells := newCells[x := row];
    }
    r := Game(g.rows, g.cols, newCells);
  }
}
