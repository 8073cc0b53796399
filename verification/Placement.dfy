/** Writing codeword bits into the free modules of a symbol and reading them back. */
module Placement {
  import opened Bits
  import opened BitStrings
  import opened Results
  import opened Grids
  import opened Sets
  import opened Zigzag

  predicate AllInside(cells: seq<Cell>, n: nat)
  {
    forall i :: 0 <= i < |cells| ==> Inside(cells[i], n)
  }

  /** The cells of a path that are not function modules. */
  function Free(isFunction: Grid, cells: seq<Cell>): (free: seq<Cell>)
    requires Square(isFunction, |isFunction|) && AllInside(cells, |isFunction|)
    ensures AllInside(free, |isFunction|)
  {
    if |cells| == 0 then []
    else
      var n := |cells| - 1;
      Free(isFunction, cells[..n]) + if At(isFunction, cells[n]) then [] else [cells[n]]
  }

  lemma FreeSnoc(isFunction: Grid, cells: seq<Cell>, c: Cell)
    requires Square(isFunction, |isFunction|) && AllInside(cells, |isFunction|) && Inside(c, |isFunction|)
    ensures AllInside(cells + [c], |isFunction|)
    ensures Free(isFunction, cells + [c]) == Free(isFunction, cells) + if At(isFunction, c) then [] else [c]
  {
    assert (cells + [c])[..|cells|] == cells;
  }

  lemma {:induction false} FreeMember(isFunction: Grid, cells: seq<Cell>, c: Cell)
    requires Square(isFunction, |isFunction|) && AllInside(cells, |isFunction|)
    ensures c in Free(isFunction, cells) <==> c in cells && !At(isFunction, c)
  {
    if |cells| != 0 {
      var n := |cells| - 1;
      FreeMember(isFunction, cells[..n], c);
      assert cells == cells[..n] + [cells[n]];
    }
  }

  lemma {:induction false} FreeDistinct(isFunction: Grid, cells: seq<Cell>)
    requires Square(isFunction, |isFunction|) && AllInside(cells, |isFunction|) && Distinct(cells)
    ensures Distinct(Free(isFunction, cells))
  {
    if |cells| != 0 {
      var n := |cells| - 1;
      FreeDistinct(isFunction, cells[..n]);
      FreeMember(isFunction, cells[..n], cells[n]);
    }
  }

  /** The steps of a path before step k that meet a free module. */
  ghost function FreeSteps(isFunction: Grid, cells: seq<Cell>, k: nat): (s: set<int>)
    requires Square(isFunction, |isFunction|) && AllInside(cells, |isFunction|) && k <= |cells|
  {
    set t | 0 <= t < k && !At(isFunction, cells[t])
  }

  /** A free module met at step k comes in the list of free modules after as many as were met before. */
  lemma {:induction false} FreeAt(isFunction: Grid, cells: seq<Cell>, k: nat)
    requires Square(isFunction, |isFunction|) && AllInside(cells, |isFunction|) && k < |cells|
    ensures var free, i := Free(isFunction, cells), |FreeSteps(isFunction, cells, k)|;
            && (!At(isFunction, cells[k]) ==> i < |free| && free[i] == cells[k])
            && |free| == |FreeSteps(isFunction, cells, |cells|)|
    decreases |cells|
  {
    hide FreeSteps, At, Square;
    var n := |cells| - 1;
    FreeStepsPrefix(isFunction, cells, n, k);
    FreeStepsPrefix(isFunction, cells, n, n);
    FreeStepsNext(isFunction, cells, n);
    if k < n {
      FreeAt(isFunction, cells[..n], k);
    } else if n > 0 {
      FreeAt(isFunction, cells[..n], 0);
    } else {
      FreeStepsNone(isFunction, cells);
    }
  }

  lemma FreeStepsPrefix(isFunction: Grid, cells: seq<Cell>, n: nat, k: nat)
    requires Square(isFunction, |isFunction|) && AllInside(cells, |isFunction|) && n <= |cells|
    ensures AllInside(cells[..n], |isFunction|)
    ensures k <= n ==> FreeSteps(isFunction, cells[..n], k) == FreeSteps(isFunction, cells, k)
  {
  }

  lemma FreeStepsNext(isFunction: Grid, cells: seq<Cell>, k: nat)
    requires Square(isFunction, |isFunction|) && AllInside(cells, |isFunction|) && k < |cells|
    ensures |FreeSteps(isFunction, cells, k + 1)|
            == |FreeSteps(isFunction, cells, k)| + if At(isFunction, cells[k]) then 0 else 1
  {
    assert k !in FreeSteps(isFunction, cells, k);
    assert FreeSteps(isFunction, cells, k + 1)
           == FreeSteps(isFunction, cells, k) + if At(isFunction, cells[k]) then {} else {k};
  }

  lemma FreeStepsNone(isFunction: Grid, cells: seq<Cell>)
    requires Square(isFunction, |isFunction|) && AllInside(cells, |isFunction|)
    ensures FreeSteps(isFunction, cells, 0) == {}
  {
  }

  /** The grid after bit i has been written to cell i, for every bit. */
  function PlaceBits(g: Grid, cells: seq<Cell>, bits: seq<bool>): (r: Grid)
    requires Square(g, |g|) && AllInside(cells, |g|) && |bits| <= |cells|
    ensures Square(r, |g|)
  {
    if |bits| == 0 then g
    else
      var n := |bits| - 1;
      Set(PlaceBits(g, cells, bits[..n]), cells[n], bits[n])
  }

  lemma PlaceBitsSnoc(g: Grid, cells: seq<Cell>, bits: seq<bool>, b: bool)
    requires Square(g, |g|) && AllInside(cells, |g|) && |bits| < |cells|
    ensures PlaceBits(g, cells, bits + [b]) == Set(PlaceBits(g, cells, bits), cells[|bits|], b)
  {
    assert (bits + [b])[..|bits|] == bits;
  }

  /** Further cells do not matter. */
  lemma {:induction false} PlaceBitsMore(g: Grid, cells: seq<Cell>, more: seq<Cell>, bits: seq<bool>)
    requires Square(g, |g|) && AllInside(cells, |g|) && AllInside(cells + more, |g|) && |bits| <= |cells|
    ensures PlaceBits(g, cells + more, bits) == PlaceBits(g, cells, bits)
  {
    if |bits| != 0 {
      PlaceBitsMore(g, cells, more, bits[..|bits| - 1]);
    }
  }

  /** Each cell of the path holds its bit, and every other module is unchanged. */
  lemma {:induction false} PlacedAt(g: Grid, cells: seq<Cell>, bits: seq<bool>, c: Cell)
    requires Square(g, |g|) && AllInside(cells, |g|) && Distinct(cells) && |bits| <= |cells|
    requires Inside(c, |g|)
    ensures forall i :: 0 <= i < |bits| && cells[i] == c ==> At(PlaceBits(g, cells, bits), c) == bits[i]
    ensures c !in cells[..|bits|] ==> At(PlaceBits(g, cells, bits), c) == At(g, c)
  {
    hide Set;
    if |bits| != 0 {
      var n := |bits| - 1;
      PlacedAt(g, cells, bits[..n], c);
      assert cells[n] in cells[..|bits|];
      assert forall d :: d in cells[..n] ==> d in cells[..|bits|];
      SetAt(PlaceBits(g, cells, bits[..n]), cells[n], bits[n], c);
    }
  }

  lemma SetAt(g: Grid, c: Cell, b: bool, d: Cell)
    requires Square(g, |g|) && Inside(c, |g|) && Inside(d, |g|)
    ensures At(Set(g, c, b), d) == if d == c then b else At(g, d)
  {
  }

  /** The modules along a path. */
  function ReadCells(g: Grid, cells: seq<Cell>): (bits: seq<bool>)
    requires Square(g, |g|) && AllInside(cells, |g|)
    ensures |bits| == |cells|
  {
    seq(|cells|, i requires 0 <= i < |cells| => At(g, cells[i]))
  }

  /** Reading along the same path returns the bits. */
  lemma ReadPlaced(g: Grid, cells: seq<Cell>, bits: seq<bool>)
    requires Square(g, |g|) && AllInside(cells, |g|) && Distinct(cells) && |bits| <= |cells|
    ensures ReadCells(PlaceBits(g, cells, bits), cells)[..|bits|] == bits
  {
    var r := PlaceBits(g, cells, bits);
    forall i | 0 <= i < |bits|
      ensures ReadCells(r, cells)[i] == bits[i]
    {
      PlacedAt(g, cells, bits, cells[i]);
    }
  }

  //////////////////////////////////////////////////////////////////////////////
  // Modules in memory
  //////////////////////////////////////////////////////////////////////////////

  ghost function RowOf(a: array2<bool>, y: int): (row: seq<bool>)
    requires 0 <= y < a.Length0
    reads a
    ensures |row| == a.Length1 && forall x :: 0 <= x < |row| ==> row[x] == a[y, x]
  {
    seq(a.Length1, x requires 0 <= x < a.Length1 reads a => a[y, x])
  }

  /** The present contents of a two-dimensional array. */
  ghost function Snapshot(a: array2<bool>): (g: Grid)
    reads a
    ensures |g| == a.Length0
    ensures forall y :: 0 <= y < |g| ==> g[y] == RowOf(a, y)
  {
    seq(a.Length0, y requires 0 <= y < a.Length0 reads a => RowOf(a, y))
  }

  method WriteModule(a: array2<bool>, c: Cell, b: bool)
    requires a.Length0 == a.Length1 && Inside(c, a.Length0)
    modifies a
    ensures Snapshot(a) == Set(old(Snapshot(a)), c, b)
  {
    ghost var before := Snapshot(a);
    a[c.y, c.x] := b;
    SameGrid(Snapshot(a), Set(before, c, b), a.Length0);
  }

  lemma ScanInside(size: nat)
    requires OnTrack(size - 1)
    ensures AllInside(Scan(size, size - 1), size)
  {
    hide Scan;
    var cells := Scan(size, size - 1);
    forall i | 0 <= i < |cells|
      ensures Inside(cells[i], size)
    {
      ScanMember(size, size - 1, cells[i]);
    }
  }

  /** The free modules of a symbol in scan order. */
  function FreePath(isFunction: Grid): (path: seq<Cell>)
    requires Square(isFunction, |isFunction|) && OnTrack(|isFunction| - 1)
    ensures AllInside(path, |isFunction|)
  {
    ScanInside(|isFunction|);
    Free(isFunction, Scan(|isFunction|, |isFunction| - 1))
  }

  /** What the modules look like after `visited` has been scanned. */
  ghost predicate DrawnSoFar(g: Grid, h: Grid, isFunction: Grid, visited: seq<Cell>, bits: seq<bool>, i: nat)
    requires Square(g, |g|) && Square(isFunction, |g|)
  {
    && AllInside(visited, |g|)
    && |isFunction| == |g|
    && var path := Free(isFunction, visited);
       && i == (if |path| <= |bits| then |path| else |bits|)
       && h == PlaceBits(g, path, bits[..i])
  }

  lemma DrawnStart(g: Grid, isFunction: Grid, bits: seq<bool>)
    requires Square(g, |g|) && Square(isFunction, |g|)
    ensures DrawnSoFar(g, g, isFunction, [], bits, 0)
  {
  }

  lemma DrawnNext(g: Grid, h: Grid, isFunction: Grid, visited: seq<Cell>, bits: seq<bool>, i: nat, c: Cell)
    requires Square(g, |g|) && Square(isFunction, |g|) && Inside(c, |g|)
    requires DrawnSoFar(g, h, isFunction, visited, bits, i)
    ensures if !At(isFunction, c) && i < |bits|
            then Square(h, |g|) && DrawnSoFar(g, Set(h, c, bits[i]), isFunction, visited + [c], bits, i + 1)
            else DrawnSoFar(g, h, isFunction, visited + [c], bits, i)
  {
    hide Set, PlaceBits;
    var path := Free(isFunction, visited);
    FreeSnoc(isFunction, visited, c);
    if !At(isFunction, c) {
      PlaceBitsMore(g, path, [c], bits[..i]);
      if i < |bits| {
        PlaceBitsSnoc(g, path + [c], bits[..i], bits[i]);
        assert bits[..i + 1] == bits[..i] + [bits[i]];
      }
    } else {
      assert path + [] == path;
    }
  }

  predicate SameSquare(modules: array2<bool>, isFunction: array2<bool>)
  {
    && modules != isFunction
    && modules.Length0 == modules.Length1 == isFunction.Length0 == isFunction.Length1
  }

  /** Draws bits into one column pair, starting with bit i. */
  method DrawPair(modules: array2<bool>, isFunction: array2<bool>, data: seq<Byte>, right: int, i: nat,
                  ghost g: Grid, ghost visited: seq<Cell>) returns (next: nat)
    requires SameSquare(modules, isFunction) && 1 <= right < modules.Length0
    requires Square(g, modules.Length0)
    requires DrawnSoFar(g, Snapshot(modules), Snapshot(isFunction), visited, Unpack(data), i)
    modifies modules
    ensures DrawnSoFar(g, Snapshot(modules), Snapshot(isFunction), visited + ScanPair(modules.Length0, right, 0), Unpack(data), next)
  {
    hide ScanPair, Free, PlaceBits, Set, Unpack;
    var size := modules.Length0;
    ghost var f, bits, pair := Snapshot(isFunction), Unpack(data), ScanPair(size, right, 0);
    ghost var path := visited;
    next := i;
    for vert := 0 to size
      invariant visited + pair == path + ScanPair(size, right, vert)
      invariant DrawnSoFar(g, Snapshot(modules), f, path, bits, next)
    {
      ScanPairUnfold(size, right, vert);
      ghost var before := path;
      var upward := (right + 1) / 2 % 2 == 0;
      var y := if upward then size - 1 - vert else vert;
      for j := 0 to 2
        invariant path == before + [Cell(right, y), Cell(right - 1, y)][..j]
        invariant DrawnSoFar(g, Snapshot(modules), f, path, bits, next)
      {
        var c := Cell(right - j, y);
        DrawnNext(g, Snapshot(modules), f, path, bits, next, c);
        if !isFunction[c.y, c.x] && next < |data| * 8 {
          WriteModule(modules, c, GetBit(data[next / 8], 7 - next % 8));
          next := next + 1;
        }
        path := path + [c];
      }
    }
    ScanPairEnd(size, right);
    assert path == visited + pair;
  }

  /**
  The zigzag drawing loop.  It fails exactly when there are fewer free modules than bits; otherwise
  bit i of the codewords ends up in the i-th free module of the scan and nothing else changes.
  */
  method DrawCodewords(modules: array2<bool>, isFunction: array2<bool>, data: seq<Byte>) returns (r: Result<()>)
    requires SameSquare(modules, isFunction) && OnTrack(modules.Length0 - 1)
    modifies modules
    ensures r == if 8 * |data| <= |FreePath(Snapshot(isFunction))| then Ok(()) else Err(LogicError)
    ensures r.Ok? ==> Snapshot(modules) == PlaceBits(old(Snapshot(modules)), FreePath(Snapshot(isFunction)), Unpack(data))
  {
    hide Scan, ScanPair, Free, PlaceBits, Unpack;
    var size := modules.Length0;
    ghost var g, f, bits := Snapshot(modules), Snapshot(isFunction), Unpack(data);
    ghost var all := Scan(size, size - 1);
    ghost var visited: seq<Cell> := [];
    DrawnStart(g, f, bits);
    var i := 0;
    var right := size - 1;
    while right >= 1
      invariant OnTrack(right) && right < size
      invariant all == visited + Scan(size, right)
      invariant DrawnSoFar(g, Snapshot(modules), f, visited, bits, i)
      decreases right + 1
    {
      ScanUnfold(size, right);
      if right == 6 {
        right := 5;
      }
      i := DrawPair(modules, isFunction, data, right, i, g, visited);
      visited := visited + ScanPair(size, right, 0);
      right := right - 2;
    }
    ScanUnfold(size, right);
    assert visited == all && bits[..|bits|] == bits;
    if i != |data| * 8 {
      return Err(LogicError);
    }
    return Ok(());
  }
}
