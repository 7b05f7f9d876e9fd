/** Integer grid geometry shared by the search and the game rules. */
module Geometry {

  /** A grid cell `(x, y)`, as the Python code's integer tuples. */
  type Pos = (int, int)

  function Abs(n: int): (r: nat)
    ensures r == n || r == -n
  {
    if n < 0 then -n else n
  }

  /** `abs(a[0] - b[0]) + abs(a[1] - b[1])`. */
  function Manhattan(a: Pos, b: Pos): nat
  {
    Abs(a.0 - b.0) + Abs(a.1 - b.1)
  }

  /** Both coordinate differences are at most `r`: the "within r tiles" test of the game. */
  predicate WithinSquare(a: Pos, b: Pos, r: int)
  {
    Abs(a.0 - b.0) <= r && Abs(a.1 - b.1) <= r
  }

  /** The four-connected step relation. */
  predicate Adjacent(a: Pos, b: Pos)
  {
    Manhattan(a, b) == 1
  }

  lemma ManhattanTriangle(a: Pos, b: Pos, c: Pos)
    ensures Manhattan(a, c) <= Manhattan(a, b) + Manhattan(b, c)
  {
  }
}
