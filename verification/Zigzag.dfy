/**
The order in which codeword bits are placed (section 7.7.3 of ISO/IEC 18004:2015): pairs of
columns from right to left, jumping over column 6, alternately upwards and downwards.
*/
module Zigzag {
  import opened Grids
  import opened Sets

  /** Where the scan may stand: an even column right of the timing column, or an odd one left of it. */
  predicate OnTrack(right: int)
  {
    right == -1 || right == 1 || right == 3 || right == 5 || (right >= 6 && right % 2 == 0)
  }

  /** The right column of the pair visited when the loop variable is `right`. */
  function PairColumn(right: int): (r: int)
  {
    if right == 6 then 5 else right
  }

  predicate Upward(right: int)
    requires right >= 0
  {
    (right + 1) / 2 % 2 == 0
  }

  function ScanRow(size: nat, right: int, vert: int): (y: int)
    requires right >= 0 && 0 <= vert < size
    ensures 0 <= y < size
  {
    if Upward(right) then size - 1 - vert else vert
  }

  /** The cells of a column pair from vertical step `vert` on. */
  function ScanPair(size: nat, right: int, vert: nat): (cells: seq<Cell>)
    requires right >= 1 && vert <= size
    decreases size - vert
  {
    if vert == size then []
    else
      var y := ScanRow(size, right, vert);
      [Cell(right, y), Cell(right - 1, y)] + ScanPair(size, right, vert + 1)
  }

  /** The cells visited from the given value of the loop variable on. */
  function Scan(size: nat, right: int): (cells: seq<Cell>)
    requires OnTrack(right)
    decreases right + 1
  {
    if right < 1 then []
    else ScanPair(size, PairColumn(right), 0) + Scan(size, PairColumn(right) - 2)
  }

  lemma ScanPairUnfold(size: nat, right: int, vert: nat)
    requires right >= 1 && vert < size
    ensures var y := ScanRow(size, right, vert);
            ScanPair(size, right, vert) == [Cell(right, y), Cell(right - 1, y)] + ScanPair(size, right, vert + 1)
  {
  }

  lemma ScanPairEnd(size: nat, right: int)
    requires right >= 1
    ensures ScanPair(size, right, size) == []
  {
  }

  lemma ScanUnfold(size: nat, right: int)
    requires OnTrack(right)
    ensures right >= 1 ==>
              Scan(size, right) == ScanPair(size, PairColumn(right), 0) + Scan(size, PairColumn(right) - 2)
    ensures right < 1 ==> Scan(size, right) == []
  {
  }

  lemma {:induction false} ScanPairMember(size: nat, right: int, vert: nat, c: Cell)
    requires right >= 1 && vert <= size
    ensures c in ScanPair(size, right, vert)
       <==> (c.x == right || c.x == right - 1) && exists v :: vert <= v < size && c.y == ScanRow(size, right, v)
    decreases size - vert
  {
    hide ScanRow;
    if vert < size {
      ScanPairMember(size, right, vert + 1, c);
      var y := ScanRow(size, right, vert);
      var head, rest := [Cell(right, y), Cell(right - 1, y)], ScanPair(size, right, vert + 1);
      assert c in head + rest <==> c in head || c in rest;
      assert c in head <==> c == head[0] || c == head[1];
      if v :| vert + 1 <= v < size && c.y == ScanRow(size, right, v) {
        assert vert <= v;
      }
    }
  }

  /** A column pair is visited completely. */
  lemma ScanPairComplete(size: nat, right: int, c: Cell)
    requires right >= 1
    ensures c in ScanPair(size, right, 0) <==> (c.x == right || c.x == right - 1) && 0 <= c.y < size
  {
    ScanPairMember(size, right, 0, c);
    if 0 <= c.y < size {
      var v := if Upward(right) then size - 1 - c.y else c.y;
      assert c.y == ScanRow(size, right, v);
    }
  }

  lemma {:induction false} ScanPairDistinct(size: nat, right: int, vert: nat)
    requires right >= 1 && vert <= size
    ensures Distinct(ScanPair(size, right, vert))
    decreases size - vert
  {
    if vert < size {
      ScanPairDistinct(size, right, vert + 1);
      var y := ScanRow(size, right, vert);
      ScanPairMember(size, right, vert + 1, Cell(right, y));
      ScanPairMember(size, right, vert + 1, Cell(right - 1, y));
      var head, rest := [Cell(right, y), Cell(right - 1, y)], ScanPair(size, right, vert + 1);
      assert Distinct(head);
      DistinctConcat(head, rest);
    }
  }

  lemma DistinctConcat(a: seq<Cell>, b: seq<Cell>)
    requires Distinct(a) && Distinct(b)
    requires forall i :: 0 <= i < |a| ==> a[i] !in b
    ensures Distinct(a + b)
  {
  }

  /** The scan visits exactly the modules of the grid outside column 6. */
  lemma {:induction false} ScanMember(size: nat, right: int, c: Cell)
    requires OnTrack(right)
    ensures c in Scan(size, right) <==> 0 <= c.x <= right && c.x != 6 && 0 <= c.y < size
    decreases right + 1
  {
    hide ScanPair;
    if right >= 1 {
      var r := PairColumn(right);
      ScanPairComplete(size, r, c);
      ScanMember(size, r - 2, c);
    }
  }

  /** The scan visits no module twice. */
  lemma {:induction false} ScanDistinct(size: nat, right: int)
    requires OnTrack(right)
    ensures Distinct(Scan(size, right))
    decreases right + 1
  {
    hide ScanPair;
    if right >= 1 {
      var r := PairColumn(right);
      var pair, rest := ScanPair(size, r, 0), Scan(size, r - 2);
      ScanPairDistinct(size, r, 0);
      ScanDistinct(size, r - 2);
      forall i | 0 <= i < |pair|
        ensures pair[i] !in rest
      {
        assert pair[i] in pair;
        ScanPairComplete(size, r, pair[i]);
        ScanMember(size, r - 2, pair[i]);
      }
      DistinctConcat(pair, rest);
    }
  }

  lemma UpwardNext(r: int)
    requires r >= 2
    ensures Upward(r - 2) != Upward(r)
  {
    var q := (r + 1) / 2;
    assert (r - 1) / 2 == q - 1;
    assert q == 2 * (q / 2) + q % 2;
  }

  lemma UpwardAcross()
    ensures !Upward(5) && Upward(8)
  {
  }

  /** Consecutive column pairs are scanned in opposite directions, also across column 6. */
  lemma DirectionsAlternate(right: int)
    requires OnTrack(right) && PairColumn(PairColumn(right) - 2) >= 1
    ensures Upward(PairColumn(PairColumn(right) - 2)) != Upward(PairColumn(right))
  {
    hide Upward;
    UpwardAcross();
    UpwardNext(PairColumn(right));
  }

  /** The first pair of every symbol size is scanned upwards. */
  lemma FirstPairUpward(version: nat)
    ensures OnTrack(4 * version + 16) && Upward(4 * version + 16)
  {
    assert (4 * version + 17) / 2 == 2 * (version + 4);
  }

  //////////////////////////////////////////////////////////////////////////////
  // The order in closed form
  //////////////////////////////////////////////////////////////////////////////

  lemma {:induction false} ScanPairAt(size: nat, right: int, vert: nat, v: nat, j: nat)
    requires right >= 1 && vert <= size
    ensures |ScanPair(size, right, vert)| == 2 * (size - vert)
    ensures vert <= v < size && j < 2 ==>
              ScanPair(size, right, vert)[2 * (v - vert) + j] == Cell(right - j, ScanRow(size, right, v))
    decreases size - vert
  {
    hide ScanRow;
    if vert < size {
      ScanPairAt(size, right, vert + 1, v, j);
    }
  }

  /** The right column of the k-th pair visited when the loop variable is `right`. */
  function NthPair(right: int, k: nat): (r: int)
  {
    var c := PairColumn(right) - 2 * k;
    if PairColumn(right) > 6 && c <= 6 then c - 1 else c
  }

  /** Where in the scan the k-th pair's v-th row begins. */
  function ScanIndex(size: nat, k: nat, v: nat): (p: nat)
  {
    k * (2 * size) + 2 * v
  }

  lemma ScanIndexFirst(size: nat, v: nat)
    ensures ScanIndex(size, 0, v) == 2 * v
  {
  }

  lemma ScanIndexNext(size: nat, k: nat, v: nat)
    ensures ScanIndex(size, k + 1, v) == ScanIndex(size, k, v) + 2 * size
  {
    OneMore(k, 2 * size);
  }

  lemma PairInside(right: int)
    ensures right >= 1 <==> PairColumn(right) >= 1
    ensures right >= 0 <==> PairColumn(right) >= 0
  {
  }

  lemma NthPairFirst(right: int)
    ensures NthPair(right, 0) == PairColumn(right)
  {
  }

  lemma NthPairNext(right: int, k: nat)
    requires OnTrack(right) && k >= 1 && NthPair(right, k) >= 1
    ensures OnTrack(PairColumn(right) - 2) && PairColumn(PairColumn(right) - 2) >= 1
    ensures NthPair(PairColumn(right) - 2, k - 1) == NthPair(right, k)
    ensures k % 2 == 0 <==> (k - 1) % 2 != 0
  {
  }

  /** The modules met by the scan from `right` on, when its first pair is scanned upwards or downwards. */
  lemma {:induction false} ScanAt(size: nat, right: int, up: bool, k: nat, v: nat, j: nat)
    requires OnTrack(right) && right >= 1 && up == Upward(PairColumn(right))
    requires NthPair(right, k) >= 1 && v < size && j < 2
    ensures ScanIndex(size, k, v) + j < |Scan(size, right)|
    ensures Scan(size, right)[ScanIndex(size, k, v) + j]
            == Cell(NthPair(right, k) - j, if (k % 2 == 0) == up then size - 1 - v else v)
    decreases k
  {
    hide Upward, ScanPair, Scan, ScanIndex, NthPair, PairColumn;
    var r := PairColumn(right);
    PairInside(right);
    ScanUnfold(size, right);
    ScanPairAt(size, r, 0, v, j);
    if k == 0 {
      ScanIndexFirst(size, v);
      NthPairFirst(right);
    } else {
      NthPairNext(right, k);
      PairInside(r - 2);
      DirectionsAlternate(right);
      ScanIndexNext(size, k - 1, v);
      ScanAt(size, r - 2, !up, k - 1, v, j);
    }
  }

  /**
  The whole scan of a symbol of size n: the k-th pair of columns is n-1-2k and its left neighbour, one
  further left from column 6 on; the first pair and every second one run from the bottom row up, the
  others from the top row down; in each row the right module comes before the left one.
  */
  lemma ScanOrder(version: nat, k: nat, v: nat, j: nat)
    requires 2 * k < 4 * version + 16 && v < 4 * version + 17 && j < 2
    ensures var n := 4 * version + 17;
            var right := if n - 1 - 2 * k > 6 then n - 1 - 2 * k else n - 2 - 2 * k;
            && OnTrack(n - 1) && ScanIndex(n, k, v) + j < |Scan(n, n - 1)|
            && Scan(n, n - 1)[ScanIndex(n, k, v) + j] == Cell(right - j, if k % 2 == 0 then n - 1 - v else v)
  {
    hide Upward, Scan, ScanIndex;
    FirstPairUpward(version);
    ScanAt(4 * version + 17, 4 * version + 16, true, k, v, j);
  }

  /** The first bit goes to the bottom right corner. */
  lemma ScanFirst(version: nat)
    ensures var n := 4 * version + 17;
            OnTrack(n - 1) && |Scan(n, n - 1)| > 0 && Scan(n, n - 1)[0] == Cell(n - 1, n - 1)
  {
    hide Scan, ScanIndex;
    ScanOrder(version, 0, 0, 0);
    ScanIndexFirst(4 * version + 17, 0);
  }
}
