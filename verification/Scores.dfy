/** Penalties of particular lines and symbols in closed form, which fix the weights of the score. */
module Scores {
  import opened Arithmetic
  import opened Grids
  import opened Sets
  import opened Runs
  import opened LinePenalty
  import opened Penalty

  /** A line of one colour costs its length minus 2. */
  lemma UniformLineScore(black: bool, n: nat)
    requires n >= 5
    ensures LineScore(Repeat(black, n)) == n - 2
  {
    hide RunsOf, Expand;
    var white, own := Run(false, n), Run(black, n);
    ExpandOne(own);
    RunsOfUnique([own]);
    RunScoreOne(own);
    if black {
      ExpandThree(white, own, white);
      RunsOfUnique([white, own, white]);
      assert Bordered(Repeat(black, n)) == Repeat(false, n) + Repeat(true, n) + Repeat(false, n);
    } else {
      ExpandOne(Run(false, 3 * n));
      RunsOfUnique([Run(false, 3 * n)]);
      assert Bordered(Repeat(black, n)) == Repeat(false, 3 * n);
    }
  }

  lemma ExpandOne(r: Run)
    ensures Expand([r]) == Repeat(r.black, r.len)
  {
    assert [] + [r] == [r];
    ExpandNothing();
    ExpandSnoc([], r);
  }

  lemma ExpandThree(a: Run, b: Run, c: Run)
    ensures Expand([a, b, c]) == Repeat(a.black, a.len) + Repeat(b.black, b.len) + Repeat(c.black, c.len)
  {
    hide Expand;
    ExpandOne(a);
    assert [a] + [b] == [a, b] && [a, b] + [c] == [a, b, c];
    ExpandSnoc([a], b);
    ExpandSnoc([a, b], c);
  }

  lemma RunScoreOne(r: Run)
    ensures RunScore([r]) == RunCost(r.len)
  {
    assert [] + [r] == [r];
    RunScoreSnoc([], r);
  }

  /** The grid of one colour. */
  function Uniform(n: nat, black: bool): (g: Grid)
    ensures Square(g, n)
    ensures forall y :: 0 <= y < n ==> g[y] == Repeat(black, n)
  {
    seq(n, y => Repeat(black, n))
  }

  lemma {:induction false} UniformRows(n: nat, black: bool, k: nat)
    requires n >= 5 && k <= n
    ensures RowScores(Uniform(n, black), k) == k * (n - 2)
    ensures ColumnScores(Uniform(n, black), k) == k * (n - 2)
  {
    hide LineScore, Repeat, Uniform;
    if k != 0 {
      UniformRows(n, black, k - 1);
      UniformLineScore(black, n);
      UniformColumn(n, black, k - 1);
      OneMore(k - 1, n - 2);
    }
  }

  lemma UniformColumn(n: nat, black: bool, x: nat)
    requires x < n
    ensures Column(Uniform(n, black), x) == Repeat(black, n)
  {
  }

  lemma UniformSets(n: nat, black: bool)
    requires n >= 1
    ensures |SameColourBlocks(Uniform(n, black))| == (n - 1) * (n - 1)
    ensures |BlackModules(Uniform(n, black))| == if black then n * n else 0
  {
    hide Box, Range;
    var g := Uniform(n, black);
    var inner, all := Box(Range(0, n - 1), Range(0, n - 1)), Box(Range(0, n), Range(0, n));
    assert SameColourBlocks(g) == inner;
    assert BlackModules(g) == if black then all else {};
    BoxSize(Range(0, n - 1), Range(0, n - 1));
    BoxSize(Range(0, n), Range(0, n));
  }

  lemma UniformImbalance(total: nat)
    requires total >= 1
    ensures Imbalance(0, total) == 9 && Imbalance(total, total) == 9
  {
    DivideDigit(10, total, total - 1);
  }

  /** A symbol of one colour: 2n lines of n modules, (n-1)^2 blocks and the greatest imbalance. */
  lemma UniformScore(n: nat, black: bool)
    requires n >= 5
    ensures PenaltyScore(Uniform(n, black)) == 2 * (n * (n - 2)) + 3 * ((n - 1) * (n - 1)) + 90
  {
    hide RowScores, ColumnScores, SameColourBlocks, BlackModules, Imbalance, Uniform;
    UniformRows(n, black, n);
    UniformSets(n, black);
    MulMonotone(n, 1, n);
    UniformImbalance(n * n);
  }

  /** The dark and light modules across the middle of a finder pattern. */
  const FINDER_LINE: seq<bool> := [true, false, true, true, true, false, true]

  /** The runs of a finder-like pattern. */
  function FinderRuns(): (core: seq<Run>)
    ensures |core| == 5
  {
    [Run(true, 1), Run(false, 1), Run(true, 3), Run(false, 1), Run(true, 1)]
  }

  lemma ExpandFinder()
    ensures Expand(FinderRuns()) == FINDER_LINE
  {
    hide Expand;
    var core := FinderRuns();
    ExpandThree(core[0], core[1], core[2]);
    assert core[..3] == [core[0], core[1], core[2]] && core[..4] == core[..3] + [core[3]] && core == core[..4] + [core[4]];
    ExpandSnoc(core[..3], core[3]);
    ExpandSnoc(core[..4], core[4]);
  }

  lemma {:induction false} ExpandConcat(a: seq<Run>, b: seq<Run>)
    ensures Expand(a + b) == Expand(a) + Expand(b)
    decreases |b|
  {
    hide Repeat, Expand;
    if |b| == 0 {
      assert a + b == a && b == [];
      ExpandNothing();
    } else {
      var n := |b| - 1;
      var last := b[n];
      ExpandConcat(a, b[..n]);
      assert b == b[..n] + [last] && a + b == (a + b[..n]) + [last];
      ExpandSnoc(b[..n], last);
      ExpandSnoc(a + b[..n], last);
    }
  }

  function Tail(m: nat): (rs: seq<Run>)
  {
    if m == 0 then [] else [Run(false, m)]
  }

  lemma OwnRuns(m: nat)
    ensures RunsOf(FINDER_LINE + Repeat(false, m)) == FinderRuns() + Tail(m)
  {
    hide RunsOf, Expand;
    ExpandFinder();
    ExpandConcat(FinderRuns(), Tail(m));
    if m == 0 {
      ExpandNothing();
      assert FINDER_LINE + Repeat(false, m) == FINDER_LINE + [];
    } else {
      ExpandOne(Run(false, m));
    }
    RunsOfUnique(FinderRuns() + Tail(m));
  }

  /** The runs of the line between its borders. */
  function AllRuns(m: nat): (rs: seq<Run>)
  {
    [Run(false, 7 + m)] + FinderRuns() + [Run(false, m + (7 + m))]
  }

  lemma BorderedRunsOf(m: nat)
    ensures RunsOf(Bordered(FINDER_LINE + Repeat(false, m))) == AllRuns(m)
  {
    hide RunsOf, Expand;
    var n := 7 + m;
    var front, back := Run(false, n), Run(false, m + n);
    ExpandFinder();
    ExpandOne(front);
    ExpandOne(back);
    ExpandConcat([front], FinderRuns());
    ExpandConcat([front] + FinderRuns(), [back]);
    RunsOfUnique(AllRuns(m));
    assert Bordered(FINDER_LINE + Repeat(false, m)) == Repeat(false, n) + FINDER_LINE + Repeat(false, m + n);
  }

  /** A line that begins with a finder-like pattern and goes on white costs 80, for a pattern between two wide borders. */
  lemma FinderLineScore(m: nat)
    ensures LineScore(FINDER_LINE + Repeat(false, m)) == 80 + if m >= 5 then m - 2 else 0
  {
    hide RunsOf, Bordered, FinderCount, RunScore, AllRuns, Tail, Repeat;
    OwnRuns(m);
    BorderedRunsOf(m);
    OneWindow(m);
    OwnScore(m);
  }

  lemma OneWindow(m: nat)
    ensures FinderCount(AllRuns(m)) == 2
  {
    var all := AllRuns(m);
    assert |all[..6]| == 6 && all[0..] == all;
  }

  lemma OwnScore(m: nat)
    ensures RunScore(FinderRuns() + Tail(m)) == if m >= 5 then m - 2 else 0
  {
    hide RunScore;
    RunScoreCore(FinderRuns());
    if m == 0 {
      assert FinderRuns() + Tail(m) == FinderRuns();
    } else {
      RunScoreSnoc(FinderRuns(), Run(false, m));
    }
  }

  lemma RunScoreCore(core: seq<Run>)
    requires |core| == 5 && forall i :: 0 <= i < 5 ==> core[i].len < 5
    ensures RunScore(core) == 0
  {
    hide RunScore;
    RunScoreNone();
    assert core == [] + [core[0]] + [core[1]] + [core[2]] + [core[3]] + [core[4]];
    RunScoreSnoc([], core[0]);
    RunScoreSnoc([] + [core[0]], core[1]);
    RunScoreSnoc([] + [core[0]] + [core[1]], core[2]);
    RunScoreSnoc([] + [core[0]] + [core[1]] + [core[2]], core[3]);
    RunScoreSnoc([] + [core[0]] + [core[1]] + [core[2]] + [core[3]], core[4]);
  }

  lemma RunScoreNone()
    ensures RunScore([]) == 0
  {
  }

  //////////////////////////////////////////////////////////////////////////////
  // A finder-like pattern of any size between two white runs of any length
  //////////////////////////////////////////////////////////////////////////////

  /** A black module, w white ones, black and white in the ratio 1:1:3:1:1 with unit n, w' white ones and a black one. */
  function Between(n: nat, w: nat, w': nat): (rs: seq<Run>)
    ensures |rs| == 9
  {
    [Run(true, 1), Run(false, w), Run(true, n), Run(false, n), Run(true, 3 * n), Run(false, n), Run(true, n), Run(false, w'),
     Run(true, 1)]
  }

  function BetweenBordered(n: nat, w: nat, w': nat, size: nat): (rs: seq<Run>)
    ensures |rs| == 11
  {
    [Run(false, size)] + Between(n, w, w') + [Run(false, size)]
  }

  lemma BetweenRuns(n: nat, w: nat, w': nat)
    requires n >= 1 && w >= 1 && w' >= 1
    ensures var line := Expand(Between(n, w, w'));
            && RunsOf(line) == Between(n, w, w')
            && RunsOf(Bordered(line)) == BetweenBordered(n, w, w', |line|)
  {
    hide RunsOf, Expand;
    var rs := Between(n, w, w');
    var line := Expand(rs);
    var border := Run(false, |line|);
    RunsOfUnique(rs);
    ExpandOne(border);
    ExpandConcat([border], rs);
    ExpandConcat([border] + rs, [border]);
    LineNonempty(rs);
    RunsOfUnique(BetweenBordered(n, w, w', |line|));
  }

  lemma LineNonempty(rs: seq<Run>)
    requires |rs| >= 1 && rs[|rs| - 1].len >= 1
    ensures |Expand(rs)| >= 1
  {
    hide Repeat;
  }

  lemma FinderCountPrefix(rs: seq<Run>, k: nat)
    requires 7 <= k <= |rs|
    ensures FinderCount(rs[..k]) == FinderCount(rs[..k - 1]) + if rs[k - 1].black then 0 else FinderWindow(rs[k - 7..k])
  {
    hide FinderCount, FinderWindow;
    assert rs[..k][..k - 1] == rs[..k - 1] && rs[..k][k - 7..] == rs[k - 7..k];
    FinderCountUnfold(rs[..k]);
  }

  lemma OuterWindows(n: nat, w: nat, w': nat, size: nat)
    requires n >= 1
    ensures FinderWindow(BetweenBordered(n, w, w', size)[0..7]) == 0
    ensures FinderWindow(BetweenBordered(n, w, w', size)[4..11]) == 0
  {
  }

  lemma MiddleWindow(n: nat, w: nat, w': nat, size: nat)
    requires n >= 1
    ensures FinderWindow(BetweenBordered(n, w, w', size)[2..9])
            == (if w >= 4 * n && w' >= n then 1 else 0) + (if w' >= 4 * n && w >= n then 1 else 0)
  {
  }

  lemma Colours(n: nat, w: nat, w': nat, size: nat)
    ensures forall i :: 0 <= i < 11 ==> BetweenBordered(n, w, w', size)[i].black == (i % 2 == 1)
  {
  }

  /** Only the window in the middle can show a pattern. */
  lemma BetweenCount(n: nat, w: nat, w': nat, size: nat)
    requires n >= 1
    ensures FinderCount(BetweenBordered(n, w, w', size))
            == (if w >= 4 * n && w' >= n then 1 else 0) + (if w' >= 4 * n && w >= n then 1 else 0)
  {
    hide FinderCount, FinderWindow, BetweenBordered;
    var all := BetweenBordered(n, w, w', size);
    Colours(n, w, w', size);
    assert all[..11] == all;
    FinderCountPrefix(all, 11);
    FinderCountPrefix(all, 10);
    FinderCountPrefix(all, 9);
    FinderCountPrefix(all, 8);
    FinderCountPrefix(all, 7);
    FinderCountUnfold(all[..6]);
    OuterWindows(n, w, w', size);
    MiddleWindow(n, w, w', size);
  }

  lemma BetweenScore(n: nat, w: nat, w': nat)
    ensures RunScore(Between(n, w, w')) == 4 * RunCost(n) + RunCost(3 * n) + RunCost(w) + RunCost(w')
  {
    hide RunScore;
    var rs := Between(n, w, w');
    assert rs == rs[..8] + [rs[8]] && rs[..8] == rs[..7] + [rs[7]] && rs[..7] == rs[..6] + [rs[6]] && rs[..6] == rs[..5] + [rs[5]]
           && rs[..5] == rs[..4] + [rs[4]] && rs[..4] == rs[..3] + [rs[3]] && rs[..3] == rs[..2] + [rs[2]]
           && rs[..2] == rs[..1] + [rs[1]] && rs[..1] == [] + [rs[0]];
    RunScoreNone();
    RunScoreSnoc([], rs[0]);
    RunScoreSnoc(rs[..1], rs[1]);
    RunScoreSnoc(rs[..2], rs[2]);
    RunScoreSnoc(rs[..3], rs[3]);
    RunScoreSnoc(rs[..4], rs[4]);
    RunScoreSnoc(rs[..5], rs[5]);
    RunScoreSnoc(rs[..6], rs[6]);
    RunScoreSnoc(rs[..7], rs[7]);
    RunScoreSnoc(rs[..8], rs[8]);
  }

  /**
  A finder-like pattern with unit n counts once for each side on which at least 4n white modules lie,
  if at least n lie on the other side; every run of 5 or more modules costs its length minus 2.
  */
  lemma BetweenLineScore(n: nat, w: nat, w': nat)
    requires n >= 1 && w >= 1 && w' >= 1
    ensures LineScore(Expand(Between(n, w, w')))
            == (if w >= 4 * n && w' >= n then 40 else 0) + (if w' >= 4 * n && w >= n then 40 else 0)
               + 4 * LongRun(n) + LongRun(3 * n) + LongRun(w) + LongRun(w')
  {
    hide RunsOf, Expand, Bordered, FinderCount, RunScore, Between, BetweenBordered;
    BetweenRuns(n, w, w');
    BetweenCount(n, w, w', |Expand(Between(n, w, w'))|);
    BetweenScore(n, w, w');
  }

  function LongRun(len: nat): (cost: nat)
  {
    if len < 5 then 0 else len - 2
  }

  /** Four modules form a block of one colour exactly if none or all of them are black. */
  lemma BlockByCount(g: Grid, c: Cell)
    requires Square(g, |g|) && 0 <= c.x < |g| - 1 && 0 <= c.y < |g| - 1
    ensures var black := |set d | d in Rectangle(c.x, c.x + 2, c.y, c.y + 2) && At(g, d)|;
            SameColourBlock(g, c) <==> black == 0 || black == 4
  {
    hide Rectangle;
    var all := Rectangle(c.x, c.x + 2, c.y, c.y + 2);
    var black := set d | d in all && At(g, d);
    RectangleSize(c.x, c.x + 2, c.y, c.y + 2, 2, 2);
    SubsetSize(black, all);
    if |black| == 4 {
      SubsetOfSameSize(black, all);
    }
    var d0, d1, d2, d3 := c, Cell(c.x + 1, c.y), Cell(c.x, c.y + 1), Cell(c.x + 1, c.y + 1);
    assert all == {d0, d1, d2, d3};
    if SameColourBlock(g, c) {
      assert black == if At(g, c) then all else {};
    }
  }
}
