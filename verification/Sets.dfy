/** Sizes of finite sets of integers and of cells. */
module Sets {
  import opened Grids

  /** The integers from lo up to but excluding hi. */
  ghost function Range(lo: int, hi: int): (s: set<int>)
    requires lo <= hi
    ensures forall i :: i in s <==> lo <= i < hi
    ensures |s| == hi - lo
    decreases hi - lo
  {
    if lo == hi then {} else Range(lo, hi - 1) + {hi - 1}
  }

  lemma SubsetSize<T>(s: set<T>, t: set<T>)
    requires s <= t
    ensures |s| <= |t|
  {
    assert t == s + (t - s);
  }

  lemma SubsetOfSameSize<T>(s: set<T>, t: set<T>)
    requires s <= t && |s| == |t|
    ensures s == t
  {
    assert |t - s| == |t| - |s|;
  }

  /** The cells with one coordinate in each set. */
  ghost function Box(xs: set<int>, ys: set<int>): (s: set<Cell>)
    ensures forall c :: c in s <==> c.x in xs && c.y in ys
  {
    set x, y | x in xs && y in ys :: Cell(x, y)
  }

  lemma Pick<T>(s: set<T>) returns (x: T)
    requires |s| > 0
    ensures x in s
  {
    x :| x in s;
  }

  lemma {:induction false} ColumnSize(x: int, ys: set<int>)
    ensures |Box({x}, ys)| == |ys|
  {
    if |ys| == 0 {
      assert Box({x}, ys) == {};
    } else {
      var y := Pick(ys);
      ColumnSize(x, ys - {y});
      assert Box({x}, ys) == Box({x}, ys - {y}) + {Cell(x, y)};
    }
  }

  lemma {:induction false} BoxSize(xs: set<int>, ys: set<int>)
    ensures |Box(xs, ys)| == |xs| * |ys|
  {
    hide Box;
    if |xs| == 0 {
      assert Box(xs, ys) == {};
    } else {
      var x := Pick(xs);
      BoxSize(xs - {x}, ys);
      ColumnSize(x, ys);
      assert Box(xs, ys) == Box(xs - {x}, ys) + Box({x}, ys);
      DisjointUnionSize(Box(xs - {x}, ys), Box({x}, ys));
      OneMore(|xs| - 1, |ys|);
    }
  }

  /** The cells with x in [x, x') and y in [y, y'). */
  ghost function Rectangle(x: int, x': int, y: int, y': int): (s: set<Cell>)
    requires x <= x' && y <= y'
    ensures forall c :: c in s <==> x <= c.x < x' && y <= c.y < y'
  {
    Box(Range(x, x'), Range(y, y'))
  }

  lemma RectangleSize(x: int, x': int, y: int, y': int, w: nat, h: nat)
    requires w == x' - x && h == y' - y
    ensures |Rectangle(x, x', y, y')| == w * h
  {
    hide Box, Range;
    BoxSize(Range(x, x'), Range(y, y'));
  }

  lemma OneMore(a: int, b: int)
    ensures (a + 1) * b == a * b + b
  {
  }

  lemma DisjointUnionSize<T>(s: set<T>, t: set<T>)
    requires s !! t
    ensures |s + t| == |s| + |t|
  {
  }

  ghost predicate Distinct<T>(xs: seq<T>)
  {
    forall i, j :: 0 <= i < j < |xs| ==> xs[i] != xs[j]
  }

  /** A sequence without repetitions has as many members as elements. */
  lemma {:induction false} DistinctSize<T>(xs: seq<T>, s: set<T>)
    requires Distinct(xs)
    requires forall x :: x in s <==> x in xs
    ensures |s| == |xs|
  {
    if |xs| != 0 {
      var n := |xs| - 1;
      var last := xs[n];
      assert xs == xs[..n] + [last];
      assert last !in xs[..n];
      DistinctSize(xs[..n], s - {last});
    }
  }
}
