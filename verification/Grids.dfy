/** Square grids of modules, as values.  A grid is a sequence of rows; true is black. */
module Grids {

  datatype Cell = Cell(x: int, y: int)

  type Grid = seq<seq<bool>>

  predicate Square(g: Grid, n: nat)
  {
    |g| == n && forall y :: 0 <= y < n ==> |g[y]| == n
  }

  predicate Inside(c: Cell, n: nat)
  {
    0 <= c.x < n && 0 <= c.y < n
  }

  predicate At(g: Grid, c: Cell)
    requires Square(g, |g|) && Inside(c, |g|)
  {
    g[c.y][c.x]
  }

  function Set(g: Grid, c: Cell, b: bool): (r: Grid)
    requires Square(g, |g|) && Inside(c, |g|)
    ensures Square(r, |g|)
    ensures forall d :: Inside(d, |g|) ==> At(r, d) == if d == c then b else At(g, d)
  {
    g[c.y := g[c.y][c.x := b]]
  }

  /** Two grids of the same size with the same modules are equal. */
  lemma SameGrid(g: Grid, h: Grid, n: nat)
    requires Square(g, n) && Square(h, n)
    requires forall c :: Inside(c, n) ==> At(g, c) == At(h, c)
    ensures g == h
  {
    forall y | 0 <= y < n
      ensures g[y] == h[y]
    {
      forall x | 0 <= x < n
        ensures g[y][x] == h[y][x]
      {
        assert At(g, Cell(x, y)) == At(h, Cell(x, y));
      }
    }
  }
}
