/**
The penalty of one row or column (section 7.8.3.1 of ISO/IEC 18004:2015): long runs of one colour,
and runs in the proportions 1:1:3:1:1 of a finder pattern between wide enough white runs, where the
line is taken to have white borders as wide as the symbol.
*/
module LinePenalty {
  import opened Runs

  const PENALTY_N1 := 3
  const PENALTY_N3 := 40

  //////////////////////////////////////////////////////////////////////////////
  // Specification
  //////////////////////////////////////////////////////////////////////////////

  function RunCost(len: nat): (cost: nat)
  {
    if len >= 5 then len - 2 else 0
  }

  /** Every run of five or more modules costs its length minus 2. */
  function RunScore(rs: seq<Run>): (score: nat)
  {
    if |rs| == 0 then 0 else RunScore(rs[..|rs| - 1]) + RunCost(rs[|rs| - 1].len)
  }

  /** How many finder-like patterns seven consecutive runs show: none, or one for each wide enough side. */
  function FinderWindow(w: seq<Run>): (count: nat)
    requires |w| == 7
    ensures count <= 2
  {
    var n := w[1].len;
    var core := n > 0 && w[2].len == n && w[3].len == 3 * n && w[4].len == n && w[5].len == n;
    (if core && w[6].len >= 4 * n && w[0].len >= n then 1 else 0)
    + (if core && w[0].len >= 4 * n && w[6].len >= n then 1 else 0)
  }

  /** The finder-like patterns in all windows of seven runs that end with a white one. */
  function FinderCount(rs: seq<Run>): (count: nat)
  {
    if |rs| < 7 then 0
    else FinderCount(rs[..|rs| - 1]) + if rs[|rs| - 1].black then 0 else FinderWindow(rs[|rs| - 7..])
  }

  function Bordered(line: seq<bool>): (r: seq<bool>)
  {
    White(|line|) + line + White(|line|)
  }

  function LineScore(line: seq<bool>): (score: nat)
  {
    RunScore(RunsOf(line)) + PENALTY_N3 * FinderCount(RunsOf(Bordered(line)))
  }

  //////////////////////////////////////////////////////////////////////////////
  // The run history
  //////////////////////////////////////////////////////////////////////////////

  /** The lengths of the last seven runs, newest first, with zeros for runs that do not exist. */
  function History(rs: seq<Run>): (h: seq<nat>)
    ensures |h| == 7
  {
    seq(7, i requires 0 <= i < 7 => if i < |rs| then rs[|rs| - 1 - i].len else 0)
  }

  lemma HistoryPush(rs: seq<Run>, r: Run)
    ensures History(rs + [r]) == [r.len] + History(rs)[..6]
  {
  }

  /** The pattern count as it is computed from the history. */
  function HistoryCount(h: seq<nat>): (count: nat)
    requires |h| == 7
  {
    var n := h[1];
    var core := n > 0 && h[2] == n && h[3] == n * 3 && h[4] == n && h[5] == n;
    (if core && h[0] >= n * 4 && h[6] >= n then 1 else 0) + (if core && h[6] >= n * 4 && h[0] >= n then 1 else 0)
  }

  lemma {:induction false} Alternating(rs: seq<Run>, i: nat)
    requires Maximal(rs) && i < |rs| && !rs[0].black
    ensures rs[i].black == (i % 2 == 1)
  {
    if i != 0 {
      Alternating(rs, i - 1);
    }
  }

  /** Counting after each white run counts every window once. */
  lemma HistoryCountIsFinderCount(rs: seq<Run>)
    requires |rs| >= 1 && Maximal(rs) && !rs[0].black
    ensures FinderCount(rs) ==
            FinderCount(rs[..|rs| - 1]) + if rs[|rs| - 1].black then 0 else HistoryCount(History(rs))
  {
    hide FinderCount;
    FinderCountUnfold(rs);
    Alternating(rs, |rs| - 1);
    if |rs| < 7 {
      FinderCountUnfold(rs[..|rs| - 1]);
    }
  }

  lemma FinderCountUnfold(rs: seq<Run>)
    ensures |rs| < 7 ==> FinderCount(rs) == 0
    ensures |rs| >= 7 ==>
              FinderCount(rs) == FinderCount(rs[..|rs| - 1]) + if rs[|rs| - 1].black then 0 else FinderWindow(rs[|rs| - 7..])
  {
  }

  /** The history after the present run has ended. */
  function Pushed(runX: nat, h: seq<nat>, size: nat): (r: seq<nat>)
    requires |h| == 7
    ensures |r| == 7
  {
    [if h[0] == 0 then runX + size else runX] + h[..6]
  }

  /** Pushes a run length to the front of the history; the first run gets the white border added. */
  method FinderPenaltyAddHistory(currentRunLength: nat, runHistory: array<nat>, size: nat)
    requires runHistory.Length == 7
    modifies runHistory
    ensures runHistory[..] == Pushed(currentRunLength, old(runHistory[..]), size)
    ensures runHistory[1] == old(runHistory[0])
  {
    var length := currentRunLength;
    if runHistory[0] == 0 {
      length := length + size;
    }
    ghost var before := runHistory[..];
    var i := 6;
    while i > 0
      invariant 0 <= i <= 6
      invariant forall k :: 0 <= k <= i ==> runHistory[k] == before[k]
      invariant forall k :: i < k < 7 ==> runHistory[k] == before[k - 1]
    {
      runHistory[i] := runHistory[i - 1];
      i := i - 1;
    }
    runHistory[0] := length;
  }

  /** Counts finder-like patterns; the newest black run is never longer than three times the symbol. */
  method FinderPenaltyCountPatterns(runHistory: array<nat>, size: nat) returns (count: nat)
    requires runHistory.Length == 7 && runHistory[1] <= 3 * size
    ensures count == HistoryCount(runHistory[..])
  {
    var n := runHistory[1];
    assert !(n > size * 3);
    var core := n > 0 && runHistory[2] == n && runHistory[3] == n * 3 && runHistory[4] == n && runHistory[5] == n;
    count := (if core && runHistory[0] >= n * 4 && runHistory[6] >= n then 1 else 0)
             + (if core && runHistory[6] >= n * 4 && runHistory[0] >= n then 1 else 0);
  }

  //////////////////////////////////////////////////////////////////////////////
  // The scanner
  //////////////////////////////////////////////////////////////////////////////

  /** The runs of a line that so far consists of the left border and some modules. */
  function Started(prefix: seq<bool>, size: nat): (rs: seq<Run>)
  {
    RunsOf(White(size) + prefix)
  }

  lemma StartedFacts(prefix: seq<bool>, size: nat)
    requires size >= 1
    ensures var rs := Started(prefix, size);
            && |rs| >= 1 && Maximal(rs) && !rs[0].black
            && (forall i :: 0 <= i < |rs| && rs[i].black ==> rs[i].len <= |prefix|)
  {
    hide RunsOf;
    RunsOfPadFront(prefix, size);
    RunsOfMaximal(White(size) + prefix);
    RunLengths(prefix);
  }

  lemma StartedSnoc(prefix: seq<bool>, size: nat, b: bool)
    requires size >= 1
    ensures Started(prefix + [b], size) == AddModule(Started(prefix, size), b)
  {
    assert White(size) + (prefix + [b]) == (White(size) + prefix) + [b];
    RunsOfSnoc(White(size) + prefix, b);
  }

  /** What the scanner knows after a prefix of the line. */
  ghost predicate Scanned(prefix: seq<bool>, size: nat, runColor: bool, runX: nat, h: seq<nat>, score: nat)
  {
    var rs, own := Started(prefix, size), RunsOf(prefix);
    var k := |rs| - 1;
    && |rs| >= 1
    && rs[k] == Run(runColor, runX + if k == 0 then size else 0)
    && h == History(rs[..k])
    && score == RunScore(own) + PENALTY_N3 * FinderCount(rs[..k])
    && (if |own| == 0 then runX == 0 && !runColor else own[|own| - 1] == Run(runColor, runX))
  }

  lemma ScanStart(size: nat)
    requires size >= 1
    ensures Scanned([], size, false, 0, [0, 0, 0, 0, 0, 0, 0], 0)
  {
    RunsOfWhite(size);
    assert White(size) + [] == White(size);
    assert History([]) == [0, 0, 0, 0, 0, 0, 0];
  }

  lemma RunScoreSnoc(rs: seq<Run>, r: Run)
    ensures RunScore(rs + [r]) == RunScore(rs) + RunCost(r.len)
  {
    assert (rs + [r])[..|rs|] == rs;
  }

  function Increment(len: nat): (cost: nat)
  {
    if len == 5 then PENALTY_N1 else if len > 5 then 1 else 0
  }

  /** Charging 3 for the fifth module of a run and 1 for each further one adds up to the run score. */
  lemma RunScoreSame(rs: seq<Run>, b: bool, len: nat)
    requires |rs| == 0 ==> len == 0
    requires |rs| > 0 ==> rs[|rs| - 1] == Run(b, len)
    ensures RunScore(AddModule(rs, b)) == RunScore(rs) + Increment(len + 1)
  {
    hide RunScore, AddModule;
    if |rs| == 0 {
      AddFirst(b);
      RunScoreSnoc([], Run(b, 1));
      assert [] + [Run(b, 1)] == [Run(b, 1)];
    } else {
      var n := |rs| - 1;
      AddSame(rs, b);
      assert rs == rs[..n] + [rs[n]];
      RunScoreSnoc(rs[..n], rs[n]);
      RunScoreSnoc(rs[..n], Run(b, len + 1));
    }
  }

  lemma AddSame(rs: seq<Run>, b: bool)
    requires |rs| > 0 && rs[|rs| - 1].black == b
    ensures var k := |rs| - 1;
            var r := AddModule(rs, b);
            r == rs[..k] + [Run(b, rs[k].len + 1)] && r[..k] == rs[..k]
  {
  }

  lemma SameStarted(prefix: seq<bool>, size: nat, b: bool, runX: nat)
    requires size >= 1
    requires var rs := Started(prefix, size);
             |rs| >= 1 && rs[|rs| - 1] == Run(b, runX + if |rs| == 1 then size else 0)
    ensures var rs, rs' := Started(prefix, size), Started(prefix + [b], size);
            var k := |rs| - 1;
            |rs'| == |rs| && rs'[..k] == rs[..k] && rs'[k] == Run(b, runX + 1 + if k == 0 then size else 0)
  {
    hide Started, AddModule;
    StartedSnoc(prefix, size, b);
    AddSame(Started(prefix, size), b);
  }

  lemma SameOwn(prefix: seq<bool>, b: bool, runX: nat)
    requires var own := RunsOf(prefix);
             if |own| == 0 then runX == 0 else own[|own| - 1] == Run(b, runX)
    ensures var own, own' := RunsOf(prefix), RunsOf(prefix + [b]);
            && |own'| > 0 && own'[|own'| - 1] == Run(b, runX + 1)
            && RunScore(own') == RunScore(own) + Increment(runX + 1)
  {
    hide RunsOf, AddModule, RunScore, Increment;
    var own := RunsOf(prefix);
    RunsOfSnoc(prefix, b);
    RunScoreSame(own, b, runX);
    if |own| == 0 {
      AddFirst(b);
    } else {
      AddSame(own, b);
    }
  }

  /** A module of the present colour lengthens the present run. */
  lemma ScanSame(prefix: seq<bool>, size: nat, runColor: bool, runX: nat, h: seq<nat>, score: nat)
    requires size >= 1 && Scanned(prefix, size, runColor, runX, h, score)
    ensures Scanned(prefix + [runColor], size, runColor, runX + 1, h, score + Increment(runX + 1))
  {
    hide FinderCount, Started, RunsOf, History, RunScore, AddModule, Increment;
    SameStarted(prefix, size, runColor, runX);
    SameOwn(prefix, runColor, runX);
  }

  lemma AddFirst(b: bool)
    ensures AddModule([], b) == [Run(b, 1)]
  {
  }

  /** The history of the runs begun so far is the history with the present run pushed. */
  lemma PushIsHistory(rs: seq<Run>, size: nat, runX: nat)
    requires |rs| >= 1 && Maximal(rs)
    requires rs[|rs| - 1].len == runX + if |rs| == 1 then size else 0
    ensures Pushed(runX, History(rs[..|rs| - 1]), size) == History(rs)
  {
    hide History;
    var k := |rs| - 1;
    assert rs == rs[..k] + [rs[k]];
    HistoryPush(rs[..k], rs[k]);
    HistoryHead(rs[..k]);
  }

  /** The black run before a white one is no longer than the line. */
  lemma NewestBlackRun(prefix: seq<bool>, size: nat)
    requires size >= 1
    ensures var rs := Started(prefix, size);
            var k := |rs| - 1;
            |rs| >= 1 && (!rs[k].black ==> History(rs[..k])[0] <= |prefix|)
  {
    hide History, Started;
    var rs := Started(prefix, size);
    var k := |rs| - 1;
    StartedFacts(prefix, size);
    HistoryHead(rs[..k]);
    if k > 0 {
      Alternating(rs, k);
      Alternating(rs, k - 1);
    }
  }

  /** Ending the present run puts its length, with the border for the first run, on the history. */
  lemma ScanPush(prefix: seq<bool>, size: nat, runColor: bool, runX: nat, h: seq<nat>, score: nat)
    requires size >= 1 && Scanned(prefix, size, runColor, runX, h, score) && |prefix| <= size
    ensures |h| == 7 && Pushed(runX, h, size) == History(Started(prefix, size))
    ensures !runColor ==> h[0] <= size
    ensures score + (if runColor then 0 else PENALTY_N3 * HistoryCount(Pushed(runX, h, size)))
            == RunScore(RunsOf(prefix)) + PENALTY_N3 * FinderCount(Started(prefix, size))
  {
    hide FinderCount, Started, RunsOf, RunScore, HistoryCount, History, Pushed;
    var rs := Started(prefix, size);
    StartedFacts(prefix, size);
    PushIsHistory(rs, size, runX);
    NewestBlackRun(prefix, size);
    HistoryCountIsFinderCount(rs);
  }

  /** A module of the other colour ends the present run and starts a new one. */
  lemma ScanChange(prefix: seq<bool>, size: nat, runColor: bool, runX: nat, h: seq<nat>, score: nat)
    requires size >= 1 && Scanned(prefix, size, runColor, runX, h, score) && |prefix| <= size
    ensures |h| == 7 && (!runColor ==> h[0] <= size)
    ensures Scanned(prefix + [!runColor], size, !runColor, 1, Pushed(runX, h, size),
                    score + if runColor then 0 else PENALTY_N3 * HistoryCount(Pushed(runX, h, size)))
  {
    hide FinderCount, Started, RunsOf, RunScore, HistoryCount, History;
    var rs, own := Started(prefix, size), RunsOf(prefix);
    ScanPush(prefix, size, runColor, runX, h, score);
    StartedSnoc(prefix, size, !runColor);
    RunsOfSnoc(prefix, !runColor);
    RunScoreSnoc(own, Run(!runColor, 1));
    assert AddModule(rs, !runColor)[..|rs|] == rs;
  }

  /** The line ends with a white border, which ends the last black run or lengthens the last white one. */
  lemma ScanEnd(line: seq<bool>, runColor: bool, runX: nat, h: seq<nat>, score: nat)
    requires |line| >= 1 && Scanned(line, |line|, runColor, runX, h, score)
    ensures |h| == 7
    ensures runColor ==>
              var h1 := Pushed(runX, h, |line|);
              h1[0] <= |line| && LineScore(line) == score + PENALTY_N3 * HistoryCount(Pushed(|line|, h1, |line|))
    ensures !runColor ==>
              h[0] <= |line| && LineScore(line) == score + PENALTY_N3 * HistoryCount(Pushed(runX + |line|, h, |line|))
  {
    hide FinderCount, RunsOf, RunScore, HistoryCount, History, Pushed, Started;
    var size := |line|;
    var rs := Started(line, size);
    var k := |rs| - 1;
    var all := RunsOf(Bordered(line));
    StartedFacts(line, size);
    ScanPush(line, size, runColor, runX, h, score);
    BorderedRuns(line);
    HistoryCountIsFinderCount(all);
    if runColor {
      HistoryHead(rs);
      assert all[..|rs|] == rs;
      PushIsHistory(all, size, size);
    } else {
      assert all[..k] == rs[..k];
      PushIsHistory(all, size, runX + size);
    }
  }

  lemma BorderedRuns(line: seq<bool>)
    requires |line| >= 1
    ensures var rs, all := Started(line, |line|), RunsOf(Bordered(line));
            all == PadBack(rs, |line|) && Maximal(all)
  {
    hide RunsOf;
    RunsOfPadBack(White(|line|) + line, |line|);
    RunsOfMaximal(Bordered(line));
  }

  lemma HistoryHead(rs: seq<Run>)
    ensures History(rs)[0] == if |rs| == 0 then 0 else rs[|rs| - 1].len
  {
  }

  /** Ends the line with the white border and counts the last patterns. */
  method FinderPenaltyTerminateAndCount(currentRunColor: bool, currentRunLength: nat, runHistory: array<nat>, size: nat)
    returns (count: nat)
    requires runHistory.Length == 7 && currentRunLength <= size
    requires currentRunColor ==> Pushed(currentRunLength, runHistory[..], size)[0] <= size
    requires !currentRunColor ==> runHistory[0] <= size
    modifies runHistory
    ensures currentRunColor ==>
              count == HistoryCount(Pushed(size, Pushed(currentRunLength, old(runHistory[..]), size), size))
    ensures !currentRunColor ==>
              count == HistoryCount(Pushed(currentRunLength + size, old(runHistory[..]), size))
  {
    var length := currentRunLength;
    if currentRunColor {
      FinderPenaltyAddHistory(length, runHistory, size);
      length := 0;
    }
    length := length + size;
    ghost var newest := runHistory[0];
    FinderPenaltyAddHistory(length, runHistory, size);
    assert runHistory[1] == newest;
    count := FinderPenaltyCountPatterns(runHistory, size);
  }

  /** The cost of the newest module of a run. */
  method ExtendRun(runX: nat) returns (cost: nat)
    ensures cost == Increment(runX)
  {
    if runX == 5 {
      cost := PENALTY_N1;
    } else if runX > 5 {
      cost := 1;
    } else {
      cost := 0;
    }
  }

  /** Ends a run in the middle of the line; a white run may complete patterns. */
  method EndRun(runColor: bool, runX: nat, runHistory: array<nat>, size: nat) returns (penalty: nat)
    requires runHistory.Length == 7
    requires !runColor ==> runHistory[0] <= size
    modifies runHistory
    ensures runHistory[..] == Pushed(runX, old(runHistory[..]), size)
    ensures penalty == if runColor then 0 else PENALTY_N3 * HistoryCount(runHistory[..])
  {
    hide Pushed, HistoryCount;
    FinderPenaltyAddHistory(runX, runHistory, size);
    penalty := 0;
    if !runColor {
      var count := FinderPenaltyCountPatterns(runHistory, size);
      penalty := count * PENALTY_N3;
    }
  }

  /** Reads one more module of the line. */
  method ScanModule(ghost prefix: seq<bool>, b: bool, size: nat, runColor: bool, runX: nat, runHistory: array<nat>, result: nat)
    returns (color: bool, x: nat, score: nat)
    requires size >= 1 && |prefix| <= size && runHistory.Length == 7
    requires Scanned(prefix, size, runColor, runX, runHistory[..], result)
    modifies runHistory
    ensures x <= runX + 1
    ensures Scanned(prefix + [b], size, color, x, runHistory[..], score)
  {
    hide Scanned, HistoryCount, Pushed, Increment;
    ghost var h := runHistory[..];
    if b == runColor {
      ScanSame(prefix, size, runColor, runX, h, result);
      color, x := runColor, runX + 1;
      var cost := ExtendRun(x);
      score := result + cost;
    } else {
      ScanChange(prefix, size, runColor, runX, h, result);
      var penalty := EndRun(runColor, runX, runHistory, size);
      color, x, score := b, 1, result + penalty;
    }
  }

  /** The run-length scanner computes the score of the line. */
  method ScanLine(line: seq<bool>) returns (result: nat)
    requires |line| >= 1
    ensures result == LineScore(line)
  {
    hide Scanned, LineScore, HistoryCount, Pushed;
    var size := |line|;
    var runColor := false;
    var runX: nat := 0;
    var runHistory := new nat[7](i => 0);
    result := 0;
    ScanStart(size);
    assert runHistory[..] == [0, 0, 0, 0, 0, 0, 0];
    for x := 0 to size
      invariant runX <= x
      invariant Scanned(line[..x], size, runColor, runX, runHistory[..], result)
    {
      assert line[..x + 1] == line[..x] + [line[x]];
      runColor, runX, result := ScanModule(line[..x], line[x], size, runColor, runX, runHistory, result);
    }
    assert line[..size] == line;
    ScanEnd(line, runColor, runX, runHistory[..], result);
    var count := FinderPenaltyTerminateAndCount(runColor, runX, runHistory, size);
    result := result + count * PENALTY_N3;
  }
}
