/** The penalty score of a symbol, by which the mask is chosen (section 7.8.3 of ISO/IEC 18004:2015). */
module Penalty {
  import opened Arithmetic
  import opened Grids
  import opened Sets
  import opened Placement
  import opened Runs
  import opened LinePenalty

  const PENALTY_N2 := 3
  const PENALTY_N4 := 10

  //////////////////////////////////////////////////////////////////////////////
  // Specification
  //////////////////////////////////////////////////////////////////////////////

  function Column(g: Grid, x: int): (line: seq<bool>)
    requires Square(g, |g|) && 0 <= x < |g|
    ensures |line| == |g| && forall y :: 0 <= y < |g| ==> line[y] == g[y][x]
  {
    seq(|g|, y requires 0 <= y < |g| => g[y][x])
  }

  /** The scores of the first k rows. */
  function RowScores(g: Grid, k: nat): (score: nat)
    requires k <= |g|
  {
    if k == 0 then 0 else RowScores(g, k - 1) + LineScore(g[k - 1])
  }

  /** The scores of the first k columns. */
  function ColumnScores(g: Grid, k: nat): (score: nat)
    requires Square(g, |g|) && k <= |g|
  {
    if k == 0 then 0 else ColumnScores(g, k - 1) + LineScore(Column(g, k - 1))
  }

  /** The module and its neighbours to the right and below have one colour. */
  predicate SameColourBlock(g: Grid, c: Cell)
    requires Square(g, |g|) && 0 <= c.x < |g| - 1 && 0 <= c.y < |g| - 1
  {
    g[c.y][c.x] == g[c.y][c.x + 1] == g[c.y + 1][c.x] == g[c.y + 1][c.x + 1]
  }

  predicate Before(c: Cell, x: int, y: int)
  {
    c.y < y || (c.y == y && c.x < x)
  }

  /** The 2 by 2 blocks of one colour, up to a position in reading order. */
  ghost function BlocksBefore(g: Grid, x: int, y: int): (s: set<Cell>)
    requires Square(g, |g|) && |g| >= 1
  {
    set c | c in Box(Range(0, |g| - 1), Range(0, |g| - 1)) && Before(c, x, y) && SameColourBlock(g, c)
  }

  ghost function SameColourBlocks(g: Grid): (s: set<Cell>)
    requires Square(g, |g|) && |g| >= 1
  {
    set c | c in Box(Range(0, |g| - 1), Range(0, |g| - 1)) && SameColourBlock(g, c)
  }

  ghost function BlackBefore(g: Grid, x: int, y: int): (s: set<Cell>)
    requires Square(g, |g|)
  {
    set c | c in Box(Range(0, |g|), Range(0, |g|)) && Before(c, x, y) && At(g, c)
  }

  ghost function BlackModules(g: Grid): (s: set<Cell>)
    requires Square(g, |g|)
  {
    set c | c in Box(Range(0, |g|), Range(0, |g|)) && At(g, c)
  }

  /** The number of 5% steps by which the share of black modules is away from one half. */
  function Imbalance(black: int, total: int): (k: int)
    requires total >= 1
  {
    (Abs(black * 20 - total * 10) + total - 1) / total - 1
  }

  predicate WithinSteps(black: int, total: int, k: int)
  {
    (45 - 5 * k) * total <= 100 * black <= (55 + 5 * k) * total
  }

  /** The imbalance is the least k >= 0 with (45-5k)% <= black/total <= (55+5k)%, for every odd total. */
  lemma ImbalanceIsLeast(black: int, total: int)
    requires 0 <= black <= total && total % 2 == 1
    ensures 0 <= Imbalance(black, total) <= 9
    ensures WithinSteps(black, total, Imbalance(black, total))
    ensures forall j :: 0 <= j < Imbalance(black, total) ==> !WithinSteps(black, total, j)
  {
    hide WithinSteps;
    var d := Abs(black * 20 - total * 10);
    var q := (d + total - 1) / total;
    CeilingDivision(d, total, q);
    WithinStepsIs(black, total, q - 1);
    forall j | 0 <= j < q - 1
      ensures !WithinSteps(black, total, j)
    {
      WithinStepsIs(black, total, j);
      MulMonotone(total, j + 1, q - 1);
    }
    if q - 1 >= 10 {
      MulMonotone(total, 10, q - 1);
    }
  }

  lemma WithinStepsIs(black: int, total: int, k: int)
    ensures WithinSteps(black, total, k) <==> Abs(black * 20 - total * 10) <= total * (k + 1)
  {
    var t := k * total;
    assert (45 - 5 * k) * total == 45 * total - 5 * t;
    assert (55 + 5 * k) * total == 55 * total + 5 * t;
    assert total * (k + 1) == t + total;
  }

  lemma CeilingDivision(d: int, total: int, q: int)
    requires total >= 1 && d >= 1 && q == (d + total - 1) / total
    ensures q >= 1 && total * (q - 1) < d <= total * q
  {
    var r := (d + total - 1) % total;
    assert d + total - 1 == total * q + r;
  }

  ghost function PenaltyScore(g: Grid): (score: int)
    requires Square(g, |g|) && |g| >= 1
  {
    RowScores(g, |g|) + ColumnScores(g, |g|)
    + PENALTY_N2 * |SameColourBlocks(g)|
    + PENALTY_N4 * Imbalance(|BlackModules(g)|, |g| * |g|)
  }

  //////////////////////////////////////////////////////////////////////////////
  // Bounds
  //////////////////////////////////////////////////////////////////////////////

  lemma {:induction false} RunScoreBound(rs: seq<Run>)
    requires Maximal(rs)
    ensures RunScore(rs) <= |Expand(rs)| && |rs| <= |Expand(rs)|
  {
    if |rs| != 0 {
      RunScoreBound(rs[..|rs| - 1]);
    }
  }

  lemma {:induction false} FinderCountBound(rs: seq<Run>)
    ensures FinderCount(rs) <= 2 * |rs|
  {
    if |rs| >= 7 {
      FinderCountBound(rs[..|rs| - 1]);
    }
  }

  lemma LineScoreBound(line: seq<bool>)
    ensures LineScore(line) <= 241 * |line|
  {
    hide RunScore, FinderCount, RunsOf, Expand;
    var own, all := RunsOf(line), RunsOf(Bordered(line));
    RunsOfMaximal(line);
    ExpandRunsOf(line);
    RunScoreBound(own);
    RunsOfMaximal(Bordered(line));
    ExpandRunsOf(Bordered(line));
    RunScoreBound(all);
    FinderCountBound(all);
  }

  lemma {:induction false} RowScoresBound(g: Grid, k: nat)
    requires Square(g, |g|) && k <= |g|
    ensures RowScores(g, k) <= 241 * |g| * k && ColumnScores(g, k) <= 241 * |g| * k
  {
    hide LineScore;
    if k != 0 {
      RowScoresBound(g, k - 1);
      LineScoreBound(g[k - 1]);
      LineScoreBound(Column(g, k - 1));
      assert 241 * |g| * k == 241 * |g| * (k - 1) + 241 * |g|;
    }
  }

  /** The score of any symbol fits a 32-bit integer, and it is never negative. */
  lemma PenaltyScoreBound(g: Grid)
    requires Square(g, |g|) && 1 <= |g| <= 177 && |g| % 2 == 1
    ensures 0 <= PenaltyScore(g) < 0x7FFF_FFFF
  {
    hide RowScores, ColumnScores, SameColourBlocks, BlackModules, Imbalance, Box, Range;
    var n := |g|;
    RowScoresBound(g, n);
    SetsBound(g);
    SquareBound(n);
    ImbalanceIsLeast(|BlackModules(g)|, n * n);
  }

  lemma SquareBound(n: nat)
    requires n <= 177 && n % 2 == 1
    ensures n * n <= 31329 && n * n % 2 == 1 && 241 * n * n <= 241 * 31329
  {
    var h := n / 2;
    assert n == 2 * h + 1;
    assert n * n == 2 * (2 * h * h + 2 * h) + 1;
    assert n * n <= 177 * 177;
  }

  lemma SetsBound(g: Grid)
    requires Square(g, |g|) && |g| >= 1
    ensures |SameColourBlocks(g)| <= |g| * |g| && |BlackModules(g)| <= |g| * |g|
  {
    hide Box, Range, SameColourBlock, At;
    var n := |g|;
    var inner, all := Box(Range(0, n - 1), Range(0, n - 1)), Box(Range(0, n), Range(0, n));
    BoxSize(Range(0, n), Range(0, n));
    assert SameColourBlocks(g) <= inner <= all;
    SubsetSize(SameColourBlocks(g), all);
    SubsetSize(BlackModules(g), all);
  }

  //////////////////////////////////////////////////////////////////////////////
  // The computation
  //////////////////////////////////////////////////////////////////////////////

  lemma BlocksSteps(g: Grid, x: int, y: int)
    requires Square(g, |g|) && |g| >= 1
    ensures BlocksBefore(g, 0, 0) == {}
    ensures BlocksBefore(g, |g| - 1, y) == BlocksBefore(g, 0, y + 1)
    ensures BlocksBefore(g, 0, |g| - 1) == SameColourBlocks(g)
    ensures 0 <= x < |g| - 1 && 0 <= y < |g| - 1 ==>
              var c := Cell(x, y);
              && c !in BlocksBefore(g, x, y)
              && BlocksBefore(g, x + 1, y) == BlocksBefore(g, x, y) + if SameColourBlock(g, c) then {c} else {}
  {
    hide Box, Range, SameColourBlock;
  }

  lemma BlackSteps(g: Grid, x: int, y: int)
    requires Square(g, |g|)
    ensures BlackBefore(g, 0, 0) == {}
    ensures BlackBefore(g, |g|, y) == BlackBefore(g, 0, y + 1)
    ensures BlackBefore(g, 0, |g|) == BlackModules(g)
    ensures 0 <= x < |g| && 0 <= y < |g| ==>
              var c := Cell(x, y);
              && c !in BlackBefore(g, x, y)
              && BlackBefore(g, x + 1, y) == BlackBefore(g, x, y) + if At(g, c) then {c} else {}
  {
    hide Box, Range, At;
  }

  method CountBlocks(modules: array2<bool>) returns (count: nat)
    requires modules.Length0 == modules.Length1 >= 1
    ensures count == |SameColourBlocks(Snapshot(modules))|
  {
    hide BlocksBefore, SameColourBlocks;
    var size := modules.Length0;
    ghost var g := Snapshot(modules);
    count := 0;
    BlocksSteps(g, 0, 0);
    for y := 0 to size - 1
      invariant count == |BlocksBefore(g, 0, y)|
    {
      for x := 0 to size - 1
        invariant count == |BlocksBefore(g, x, y)|
      {
        BlocksSteps(g, x, y);
        var color := modules[y, x];
        if color == modules[y, x + 1] && color == modules[y + 1, x] && color == modules[y + 1, x + 1] {
          count := count + 1;
        }
      }
      BlocksSteps(g, 0, y);
    }
  }

  method CountBlack(modules: array2<bool>) returns (black: nat)
    requires modules.Length0 == modules.Length1
    ensures black == |BlackModules(Snapshot(modules))|
  {
    hide BlackBefore, BlackModules;
    var size := modules.Length0;
    ghost var g := Snapshot(modules);
    black := 0;
    BlackSteps(g, 0, 0);
    for y := 0 to size
      invariant black == |BlackBefore(g, 0, y)|
    {
      for x := 0 to size
        invariant black == |BlackBefore(g, x, y)|
      {
        BlackSteps(g, x, y);
        if modules[y, x] {
          black := black + 1;
        }
      }
      BlackSteps(g, 0, y);
    }
  }

  method ScoreRows(modules: array2<bool>) returns (result: nat)
    requires modules.Length0 == modules.Length1 >= 1
    ensures result == RowScores(Snapshot(modules), modules.Length0)
  {
    hide LineScore;
    var size := modules.Length0;
    ghost var g := Snapshot(modules);
    result := 0;
    for y := 0 to size
      invariant result == RowScores(g, y)
    {
      var line := seq(size, x requires 0 <= x < size reads modules => modules[y, x]);
      assert line == g[y];
      var score := ScanLine(line);
      result := result + score;
    }
  }

  method ScoreColumns(modules: array2<bool>) returns (result: nat)
    requires modules.Length0 == modules.Length1 >= 1
    ensures result == ColumnScores(Snapshot(modules), modules.Length0)
  {
    hide LineScore;
    var size := modules.Length0;
    ghost var g := Snapshot(modules);
    result := 0;
    for x := 0 to size
      invariant result == ColumnScores(g, x)
    {
      var line := seq(size, y requires 0 <= y < size reads modules => modules[y, x]);
      assert line == Column(g, x);
      var score := ScanLine(line);
      result := result + score;
    }
  }

  /** Scores the present modules. */
  method GetPenaltyScore(modules: array2<bool>) returns (result: int)
    requires modules.Length0 == modules.Length1 >= 1
    ensures result == PenaltyScore(Snapshot(modules))
  {
    hide RowScores, ColumnScores, SameColourBlocks, BlackModules;
    var size := modules.Length0;
    result := 0;
    var rows := ScoreRows(modules);
    result := result + rows;
    var columns := ScoreColumns(modules);
    result := result + columns;
    var blocks := CountBlocks(modules);
    result := result + blocks * PENALTY_N2;
    var black := CountBlack(modules);
    var total := size * size;
    var k := (Abs(black * 20 - total * 10) + total - 1) / total - 1;
    result := result + k * PENALTY_N4;
  }
}
