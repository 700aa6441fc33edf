/**
  Toroidal coordinates. The simulation reduces every neighbour coordinate
  modulo the grid's dimension. Python's `%` floors, Dafny's `%` is Euclidean;
  the two agree whenever the divisor is positive, which is the only case the
  neighbour count ever reaches.
 */
module Torus {

  /** The coordinate `a` reduced onto the ring 0 .. n-1: the one position
      in range that differs from `a` by a multiple of `n`, the multiple being
      the quotient rounded down, as Python's `%` defines it. */
  function Wrap(a: int, n: int): (r: int)
    requires n > 0
    ensures 0 <= r < n
    ensures a == n * (a / n) + r
    ensures 0 <= a < n ==> r == a
  {
    a % n
  }

  /** Reducing is the identity on in-range coordinates and sends the two
      one-step overshoots, -1 and n, to the opposite edge. */
  lemma WrapNear(a: int, n: int)
    requires n > 0
    requires -1 <= a <= n
    ensures Wrap(a, n) == if a < 0 then n - 1 else if a == n then 0 else a
  {
  }
}
