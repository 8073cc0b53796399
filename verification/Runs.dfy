/** Maximal runs of equal modules in a line. */
module Runs {

  datatype Run = Run(black: bool, len: nat)

  /** The maximal runs of a line, found by reading it from left to right. */
  function RunsOf(line: seq<bool>): (rs: seq<Run>)
  {
    if |line| == 0 then []
    else
      var n := |line| - 1;
      AddModule(RunsOf(line[..n]), line[n])
  }

  function AddModule(rs: seq<Run>, black: bool): (r: seq<Run>)
    ensures |r| >= 1 && r[|r| - 1].black == black
  {
    var n := |rs| - 1;
    if |rs| > 0 && rs[n].black == black then rs[..n] + [Run(black, rs[n].len + 1)]
    else rs + [Run(black, 1)]
  }

  lemma RunsOfSnoc(line: seq<bool>, black: bool)
    ensures RunsOf(line + [black]) == AddModule(RunsOf(line), black)
  {
    assert (line + [black])[..|line|] == line;
  }

  /** The line that a list of runs describes. */
  function Expand(rs: seq<Run>): (line: seq<bool>)
  {
    if |rs| == 0 then []
    else
      var n := |rs| - 1;
      Expand(rs[..n]) + Repeat(rs[n].black, rs[n].len)
  }

  function Repeat(black: bool, n: nat): (line: seq<bool>)
    ensures |line| == n
  {
    seq(n, i => black)
  }

  lemma RepeatSnoc(black: bool, n: nat)
    ensures Repeat(black, n + 1) == Repeat(black, n) + [black]
    ensures Repeat(black, 0) == []
  {
  }

  lemma ExpandSnoc(rs: seq<Run>, r: Run)
    ensures Expand(rs + [r]) == Expand(rs) + Repeat(r.black, r.len)
  {
    assert (rs + [r])[..|rs|] == rs;
  }

  /** No run is empty, and neighbouring runs have different colours. */
  predicate Maximal(rs: seq<Run>)
  {
    && (forall i :: 0 <= i < |rs| ==> rs[i].len >= 1)
    && (forall i :: 0 <= i < |rs| - 1 ==> rs[i].black != rs[i + 1].black)
  }

  lemma {:induction false} RunsOfMaximal(line: seq<bool>)
    ensures Maximal(RunsOf(line))
  {
    if |line| != 0 {
      RunsOfMaximal(line[..|line| - 1]);
    }
  }

  lemma {:induction false} ExpandRunsOf(line: seq<bool>)
    ensures Expand(RunsOf(line)) == line
  {
    hide Expand, AddModule;
    if |line| == 0 {
      ExpandNothing();
    } else {
      var n := |line| - 1;
      ExpandRunsOf(line[..n]);
      ExpandAddModule(RunsOf(line[..n]), line[n]);
    }
  }

  lemma ExpandAddModule(rs: seq<Run>, black: bool)
    ensures Expand(AddModule(rs, black)) == Expand(rs) + [black]
  {
    hide Expand, Repeat;
    var n := |rs| - 1;
    RepeatSnoc(black, 0);
    if |rs| > 0 && rs[n].black == black {
      assert rs == rs[..n] + [rs[n]];
      ExpandSnoc(rs[..n], rs[n]);
      ExpandSnoc(rs[..n], Run(black, rs[n].len + 1));
      RepeatSnoc(black, rs[n].len);
    } else {
      ExpandSnoc(rs, Run(black, 1));
    }
  }

  /** The maximal runs are the only non-empty runs of alternating colours that describe the line. */
  lemma {:induction false} RunsOfUnique(rs: seq<Run>)
    requires Maximal(rs)
    ensures RunsOf(Expand(rs)) == rs
    decreases Total(rs)
  {
    hide Expand;
    if |rs| == 0 {
      ExpandNothing();
    } else {
      var n := |rs| - 1;
      var last := rs[n];
      var shorter := if last.len == 1 then rs[..n] else rs[..n] + [Run(last.black, last.len - 1)];
      assert AddModule(shorter, last.black) == rs;
      ExpandAddModule(shorter, last.black);
      TotalShorter(rs);
      RunsOfUnique(shorter);
      RunsOfSnoc(Expand(shorter), last.black);
    }
  }

  lemma ExpandNothing()
    ensures Expand([]) == []
  {
  }

  function Total(rs: seq<Run>): (n: nat)
  {
    if |rs| == 0 then 0 else Total(rs[..|rs| - 1]) + rs[|rs| - 1].len
  }

  lemma TotalShorter(rs: seq<Run>)
    requires |rs| > 0
    ensures var n := |rs| - 1;
            && Total(rs) == Total(rs[..n]) + rs[n].len
            && (rs[n].len >= 1 ==> Total(rs[..n] + [Run(rs[n].black, rs[n].len - 1)]) == Total(rs) - 1)
  {
    var n := |rs| - 1;
    if rs[n].len >= 1 {
      assert (rs[..n] + [Run(rs[n].black, rs[n].len - 1)])[..n] == rs[..n];
    }
  }

  lemma {:induction false} RunLengths(line: seq<bool>)
    ensures forall i :: 0 <= i < |RunsOf(line)| ==> RunsOf(line)[i].len <= |line|
  {
    hide RunsOf;
    if |line| == 0 {
      RunsOfNothing();
    } else {
      var n := |line| - 1;
      RunLengths(line[..n]);
      assert line == line[..n] + [line[n]];
      RunsOfSnoc(line[..n], line[n]);
    }
  }

  //////////////////////////////////////////////////////////////////////////////
  // White borders
  //////////////////////////////////////////////////////////////////////////////

  function White(n: nat): (line: seq<bool>)
    ensures |line| == n
  {
    Repeat(false, n)
  }

  /** The runs after n white modules have been put in front. */
  function PadFront(rs: seq<Run>, n: nat): (r: seq<Run>)
  {
    if |rs| > 0 && !rs[0].black then [Run(false, rs[0].len + n)] + rs[1..] else [Run(false, n)] + rs
  }

  lemma {:induction false} RunsOfWhite(n: nat)
    requires n >= 1
    ensures RunsOf(White(n)) == [Run(false, n)]
  {
    hide RunsOf, Repeat;
    RepeatSnoc(false, n - 1);
    RunsOfSnoc(White(n - 1), false);
    if n == 1 {
      RunsOfNothing();
    } else {
      RunsOfWhite(n - 1);
    }
  }

  lemma RunsOfNothing()
    ensures RunsOf([]) == []
  {
  }

  lemma {:induction false} ExpandCons(r: Run, rs: seq<Run>)
    ensures Expand([r] + rs) == Repeat(r.black, r.len) + Expand(rs)
  {
    hide Expand, Repeat;
    ExpandNothing();
    if |rs| == 0 {
      assert [r] + rs == [] + [r];
      ExpandSnoc([], r);
    } else {
      var n := |rs| - 1;
      ExpandCons(r, rs[..n]);
      assert rs == rs[..n] + [rs[n]];
      assert [r] + rs == ([r] + rs[..n]) + [rs[n]];
      ExpandSnoc(rs[..n], rs[n]);
      ExpandSnoc([r] + rs[..n], rs[n]);
    }
  }

  lemma ExpandPadFront(rs: seq<Run>, n: nat)
    ensures Expand(PadFront(rs, n)) == White(n) + Expand(rs)
  {
    hide Expand;
    if |rs| > 0 && !rs[0].black {
      assert rs == [rs[0]] + rs[1..];
      ExpandCons(rs[0], rs[1..]);
      ExpandCons(Run(false, rs[0].len + n), rs[1..]);
      assert Repeat(false, rs[0].len + n) == White(n) + Repeat(false, rs[0].len);
    } else {
      ExpandCons(Run(false, n), rs);
    }
  }

  lemma RunsOfPadFront(line: seq<bool>, n: nat)
    requires n >= 1
    ensures RunsOf(White(n) + line) == PadFront(RunsOf(line), n)
  {
    hide RunsOf, Expand, White;
    var rs := RunsOf(line);
    RunsOfMaximal(line);
    ExpandRunsOf(line);
    ExpandPadFront(rs, n);
    assert Maximal(PadFront(rs, n));
    RunsOfUnique(PadFront(rs, n));
  }

  /** The runs after n white modules have been appended. */
  function PadBack(rs: seq<Run>, n: nat): (r: seq<Run>)
  {
    var k := |rs| - 1;
    if |rs| > 0 && !rs[k].black then rs[..k] + [Run(false, rs[k].len + n)] else rs + [Run(false, n)]
  }

  lemma {:induction false} RunsOfPadBack(line: seq<bool>, n: nat)
    requires n >= 1
    ensures RunsOf(line + White(n)) == PadBack(RunsOf(line), n)
  {
    hide RunsOf, Repeat;
    RepeatSnoc(false, n - 1);
    assert line + White(n) == (line + White(n - 1)) + [false];
    RunsOfSnoc(line + White(n - 1), false);
    if n == 1 {
      RepeatSnoc(false, 0);
      assert line + White(0) == line;
    } else {
      RunsOfPadBack(line, n - 1);
    }
  }
}
