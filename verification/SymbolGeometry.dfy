/**
Where the function modules of a symbol lie: finder patterns with their separators and the format
information, timing patterns, alignment patterns and version information.  For every version the
modules they leave free are exactly as many as the closed capacity formula says.
*/
module SymbolGeometry {
  import opened Grids
  import opened Sets
  import opened Tables

  function Size(ver: int): (n: int)
  {
    4 * ver + 17
  }

  /** The distance between neighbouring alignment patterns. */
  function AlignStep(ver: int): (step: int)
    requires 2 <= ver
  {
    if ver == 32 then 26
    else (ver * 4 + NumAlign(ver) * 2 + 1) / (NumAlign(ver) * 2 - 2) * 2
  }

  /** The i-th centre coordinate of the alignment patterns. */
  function AlignPosition(ver: int, i: int): (p: int)
    requires 2 <= ver
  {
    if i == 0 then 6 else Size(ver) - 7 - (NumAlign(ver) - 1 - i) * AlignStep(ver)
  }

  /** The alignment patterns are far enough apart, and far enough from the finder patterns. */
  lemma AlignSpacing(ver: int)
    requires 2 <= ver <= 40
    ensures 2 <= NumAlign(ver) <= 7
    ensures NumAlign(ver) >= 3 ==> AlignStep(ver) >= 7
    ensures AlignPosition(ver, 1) >= 11
  {
    var n := NumAlign(ver);
    if n == 2 {
    } else if n == 3 {
    } else if n == 4 {
    } else if n == 5 {
    } else if n == 6 {
    } else {
      assert n == 7;
    }
  }

  //////////////////////////////////////////////////////////////////////////////
  // The regions
  //////////////////////////////////////////////////////////////////////////////

  /**
  Except in version 32 the distance is the least even one with which the patterns reach from the last
  one back to the first, at 6, with a first gap that is not larger than the others.
  */
  lemma AlignStepLeast(ver: int)
    requires 2 <= ver <= 40
    ensures AlignPosition(ver, 0) == 6 && AlignPosition(ver, NumAlign(ver) - 1) == 4 * ver + 10
    ensures ver == 32 ==> AlignStep(ver) == 26
    ensures ver != 32 ==>
              && AlignStep(ver) % 2 == 0
              && (NumAlign(ver) - 1) * (AlignStep(ver) - 2) < 4 * ver + 4 <= (NumAlign(ver) - 1) * AlignStep(ver)
  {
    hide NumAlign, AlignPosition;
    LastAlign(ver);
    FirstAlign(ver);
    AlignSpacing(ver);
    var n := NumAlign(ver) - 1;
    if ver != 32 {
      var h := (ver * 4 + NumAlign(ver) * 2 + 1) / (NumAlign(ver) * 2 - 2);
      CeilingTimes(4 * ver + 4, 2 * n, h);
      Regroup(n, h);
    }
  }

  lemma Regroup(n: int, h: int)
    ensures n * (h * 2) == 2 * n * h && n * (h * 2 - 2) == 2 * n * (h - 1)
  {
  }

  lemma CeilingTimes(a: int, b: int, h: int)
    requires b >= 1 && h == (a + b - 1) / b
    ensures b * (h - 1) < a <= b * h
  {
    var r := (a + b - 1) % b;
    assert a + b - 1 == b * h + r;
    assert b * (h - 1) == b * h - b;
  }

  /** A finder pattern with its separator and the format information next to it. */
  predicate InCorner(ver: int, c: Cell)
  {
    || (c.x <= 8 && c.y <= 8)
    || (c.x >= Size(ver) - 8 && c.y <= 8)
    || (c.x <= 8 && c.y >= Size(ver) - 8)
  }

  predicate OnTiming(c: Cell)
  {
    c.x == 6 || c.y == 6
  }

  predicate Near(ver: int, t: int, i: int)
    requires 2 <= ver
  {
    AlignPosition(ver, i) - 2 <= t <= AlignPosition(ver, i) + 2
  }

  /** The alignment pattern in column i and row j of the array of patterns is not on a finder pattern. */
  predicate HasAlignment(ver: int, i: int, j: int)
  {
    var n := NumAlign(ver);
    0 <= i < n && 0 <= j < n && !((i == 0 && j == 0) || (i == 0 && j == n - 1) || (i == n - 1 && j == 0))
  }

  ghost predicate InAlignment(ver: int, c: Cell)
  {
    ver >= 2 && exists i, j :: HasAlignment(ver, i, j) && Near(ver, c.x, i) && Near(ver, c.y, j)
  }

  predicate InVersionInfo(ver: int, c: Cell)
  {
    ver >= 7
    && ((Size(ver) - 11 <= c.x <= Size(ver) - 9 && c.y <= 5)
        || (Size(ver) - 11 <= c.y <= Size(ver) - 9 && c.x <= 5))
  }

  ghost predicate IsFunctionModule(ver: int, c: Cell)
  {
    InCorner(ver, c) || OnTiming(c) || InAlignment(ver, c) || InVersionInfo(ver, c)
  }

  //////////////////////////////////////////////////////////////////////////////
  // Counting
  //////////////////////////////////////////////////////////////////////////////

  /** The coordinates covered by the alignment patterns 1, ..., k. */
  ghost function AlignSpan(ver: int, k: nat): (s: set<int>)
    requires 2 <= ver
  {
    if k == 0 then {}
    else AlignSpan(ver, k - 1) + Range(AlignPosition(ver, k) - 2, AlignPosition(ver, k) + 3)
  }

  lemma {:induction false} AlignSpanWitness(ver: int, k: nat, t: int) returns (i: int)
    requires 2 <= ver && t in AlignSpan(ver, k)
    ensures 1 <= i <= k && Near(ver, t, i)
  {
    hide AlignPosition, Range;
    if Near(ver, t, k) {
      i := k;
    } else {
      i := AlignSpanWitness(ver, k - 1, t);
    }
  }

  lemma {:induction false} AlignSpanContains(ver: int, k: nat, t: int, i: int)
    requires 2 <= ver && 1 <= i <= k && Near(ver, t, i)
    ensures t in AlignSpan(ver, k)
  {
    hide AlignPosition, Range;
    if i < k {
      AlignSpanContains(ver, k - 1, t, i);
    }
  }

  lemma AlignPositionStep(ver: int, i: int)
    requires 2 <= ver && 1 <= i
    ensures AlignPosition(ver, i + 1) == AlignPosition(ver, i) + AlignStep(ver)
  {
    var a, b := NumAlign(ver) - 1 - i, AlignStep(ver);
    assert a * b == (a - 1) * b + b;
  }

  lemma {:induction false} AlignSpanFacts(ver: int, k: nat)
    requires 2 <= ver <= 40 && k <= NumAlign(ver) - 1
    ensures |AlignSpan(ver, k)| == 5 * k
    ensures forall t :: t in AlignSpan(ver, k) ==> 9 <= t <= AlignPosition(ver, k) + 2
    ensures k >= 1 ==> AlignPosition(ver, k) >= 11
  {
    hide AlignPosition, AlignStep, NumAlign, Range;
    AlignSpacing(ver);
    if k != 0 {
      AlignSpanFacts(ver, k - 1);
      if k >= 2 {
        AlignPositionStep(ver, k - 1);
      }
      DisjointUnionSize(AlignSpan(ver, k - 1), Range(AlignPosition(ver, k) - 2, AlignPosition(ver, k) + 3));
    }
  }

  /** The coordinates covered by all alignment patterns but the one at 6. */
  ghost function Span(ver: int): (s: set<int>)
    requires IsVersion(ver)
  {
    if ver == 1 then {} else assert NumAlign(ver) >= 2; AlignSpan(ver, NumAlign(ver) - 1)
  }

  /** The same without the last one, which on row and column 6 would lie on a finder pattern. */
  ghost function InnerSpan(ver: int): (s: set<int>)
    requires IsVersion(ver)
  {
    if ver == 1 then {} else assert NumAlign(ver) >= 2; AlignSpan(ver, NumAlign(ver) - 2)
  }

  lemma SpanFacts(ver: int)
    requires IsVersion(ver)
    ensures forall t :: t in Span(ver) ==> 9 <= t <= Size(ver) - 5
    ensures forall t :: t in InnerSpan(ver) ==> 9 <= t <= Size(ver) - 12
    ensures ver >= 2 ==> |Span(ver)| == 5 * (NumAlign(ver) - 1) && |InnerSpan(ver)| == 5 * (NumAlign(ver) - 2)
    ensures ver == 1 ==> |Span(ver)| == 0 && |InnerSpan(ver)| == 0
  {
    hide AlignPosition, AlignStep, AlignSpan, NumAlign;
    if ver >= 2 {
      var n := NumAlign(ver);
      AlignSpacing(ver);
      AlignSpanFacts(ver, n - 1);
      AlignSpanFacts(ver, n - 2);
      LastAlign(ver);
      if n >= 3 {
        AlignPositionStep(ver, n - 2);
      } else {
        NoSpan(ver);
      }
    }
  }

  lemma LastAlign(ver: int)
    requires 2 <= ver
    ensures AlignPosition(ver, NumAlign(ver) - 1) == Size(ver) - 7
  {
    assert 0 * AlignStep(ver) == 0;
  }

  lemma NoSpan(ver: int)
    requires 2 <= ver
    ensures AlignSpan(ver, 0) == {}
  {
  }

  lemma NearFirst(ver: int, t: int)
    requires 2 <= ver
    ensures Near(ver, t, 0) <==> 4 <= t <= 8
  {
  }

  lemma AlignmentHasSpans(ver: int, c: Cell, i: int, j: int)
    requires 2 <= ver <= 40 && HasAlignment(ver, i, j) && Near(ver, c.x, i) && Near(ver, c.y, j)
    ensures || (c.x in Span(ver) && c.y in Span(ver))
            || (c.x in InnerSpan(ver) && 4 <= c.y <= 8)
            || (4 <= c.x <= 8 && c.y in InnerSpan(ver))
  {
    hide AlignSpan, NumAlign, Near;
    var n := NumAlign(ver);
    AlignSpacing(ver);
    if 1 <= i && 1 <= j {
      AlignSpanContains(ver, n - 1, c.x, i);
      AlignSpanContains(ver, n - 1, c.y, j);
    } else if j == 0 {
      NearFirst(ver, c.y);
      AlignSpanContains(ver, n - 2, c.x, i);
    } else {
      NearFirst(ver, c.x);
      AlignSpanContains(ver, n - 2, c.y, j);
    }
  }

  /** An alignment pattern covers either two middle coordinates, or a middle one and one around 6. */
  lemma AlignmentBySpans(ver: int, c: Cell)
    requires IsVersion(ver)
    ensures InAlignment(ver, c)
       <==> || (c.x in Span(ver) && c.y in Span(ver))
            || (c.x in InnerSpan(ver) && 4 <= c.y <= 8)
            || (4 <= c.x <= 8 && c.y in InnerSpan(ver))
  {
    hide AlignSpan, NumAlign, Near;
    if ver >= 2 {
      var n := NumAlign(ver);
      AlignSpacing(ver);
      NearFirst(ver, c.x);
      NearFirst(ver, c.y);
      if InAlignment(ver, c) {
        var i, j :| HasAlignment(ver, i, j) && Near(ver, c.x, i) && Near(ver, c.y, j);
        AlignmentHasSpans(ver, c, i, j);
      }
      if c.x in Span(ver) && c.y in Span(ver) {
        var i := AlignSpanWitness(ver, n - 1, c.x);
        var j := AlignSpanWitness(ver, n - 1, c.y);
        assert HasAlignment(ver, i, j);
      }
      if c.x in InnerSpan(ver) && 4 <= c.y <= 8 {
        var i := AlignSpanWitness(ver, n - 2, c.x);
        assert HasAlignment(ver, i, 0);
      }
      if 4 <= c.x <= 8 && c.y in InnerSpan(ver) {
        var j := AlignSpanWitness(ver, n - 2, c.y);
        assert HasAlignment(ver, 0, j);
      }
    }
  }

  /** The function modules inside a symbol. */
  ghost function FunctionCells(ver: int): (s: set<Cell>)
    requires IsVersion(ver)
  {
    Finders(ver) + Timing(ver) + Alignments(ver) + VersionInfo(ver)
  }

  ghost function Finders(ver: int): (s: set<Cell>)
    requires IsVersion(ver)
  {
    var n := Size(ver);
    Rectangle(0, 9, 0, 9) + Rectangle(n - 8, n, 0, 9) + Rectangle(0, 9, n - 8, n)
  }

  ghost function Timing(ver: int): (s: set<Cell>)
    requires IsVersion(ver)
  {
    var n := Size(ver);
    Rectangle(9, n - 8, 6, 7) + Rectangle(6, 7, 9, n - 8)
  }

  /** The rows or columns next to a timing pattern that an alignment pattern on it covers. */
  ghost function Beside(): (s: set<int>)
    ensures |s| == 4
  {
    {4, 5, 7, 8}
  }

  ghost function Alignments(ver: int): (s: set<Cell>)
    requires IsVersion(ver)
  {
    Box(Span(ver), Span(ver)) + Box(InnerSpan(ver), Beside()) + Box(Beside(), InnerSpan(ver))
  }

  ghost function VersionInfo(ver: int): (s: set<Cell>)
    requires IsVersion(ver)
  {
    var n := Size(ver);
    if ver < 7 then {} else Rectangle(n - 11, n - 8, 0, 6) + Rectangle(0, 6, n - 11, n - 8)
  }

  lemma FindersMember(ver: int, c: Cell)
    requires IsVersion(ver)
    ensures c in Finders(ver) <==> Inside(c, Size(ver)) && InCorner(ver, c)
  {
    hide Rectangle;
  }

  lemma TimingMember(ver: int, c: Cell)
    requires IsVersion(ver)
    ensures c in Timing(ver) <==> Inside(c, Size(ver)) && OnTiming(c) && !InCorner(ver, c)
  {
    hide Rectangle;
  }

  lemma AlignmentsMember(ver: int, c: Cell)
    requires IsVersion(ver)
    ensures c in Alignments(ver) <==> InAlignment(ver, c) && !OnTiming(c)
    ensures InAlignment(ver, c) ==> Inside(c, Size(ver)) && !InCorner(ver, c) && !InVersionInfo(ver, c)
  {
    hide Span, InnerSpan, InAlignment, Box, Range;
    SpanFacts(ver);
    AlignmentBySpans(ver, c);
  }

  lemma VersionInfoMember(ver: int, c: Cell)
    requires IsVersion(ver)
    ensures c in VersionInfo(ver) <==> Inside(c, Size(ver)) && InVersionInfo(ver, c)
    ensures Inside(c, Size(ver)) && InVersionInfo(ver, c) ==> !InCorner(ver, c) && !OnTiming(c)
  {
    hide Rectangle;
  }

  lemma FunctionCellsMember(ver: int, c: Cell)
    requires IsVersion(ver)
    ensures c in FunctionCells(ver) <==> Inside(c, Size(ver)) && IsFunctionModule(ver, c)
  {
    hide Finders, Timing, Alignments, VersionInfo, InCorner, OnTiming, InAlignment, InVersionInfo;
    FindersMember(ver, c);
    TimingMember(ver, c);
    AlignmentsMember(ver, c);
    VersionInfoMember(ver, c);
  }

  lemma FindersSize(ver: int)
    requires IsVersion(ver)
    ensures |Finders(ver)| == 225
  {
    hide Rectangle;
    var n := Size(ver);
    var a, b, c := Rectangle(0, 9, 0, 9), Rectangle(n - 8, n, 0, 9), Rectangle(0, 9, n - 8, n);
    RectangleSize(0, 9, 0, 9, 9, 9);
    RectangleSize(n - 8, n, 0, 9, 8, 9);
    RectangleSize(0, 9, n - 8, n, 9, 8);
    DisjointUnionSize(a, b);
    DisjointUnionSize(a + b, c);
  }

  lemma TimingSize(ver: int)
    requires IsVersion(ver)
    ensures |Timing(ver)| == 8 * ver
  {
    hide Rectangle;
    var n := Size(ver);
    RectangleSize(9, n - 8, 6, 7, 4 * ver, 1);
    RectangleSize(6, 7, 9, n - 8, 1, 4 * ver);
    DisjointUnionSize(Rectangle(9, n - 8, 6, 7), Rectangle(6, 7, 9, n - 8));
  }

  lemma AlignmentsSize(ver: int)
    requires IsVersion(ver)
    ensures |Alignments(ver)| == if ver >= 2 then (25 * NumAlign(ver) - 10) * NumAlign(ver) - 55 else 0
  {
    hide Span, InnerSpan, Box, Range, NumAlign, Beside;
    var xs, ys := Span(ver), InnerSpan(ver);
    var a, b, c := Box(xs, xs), Box(ys, Beside()), Box(Beside(), ys);
    AlignmentsDisjoint(ver);
    DisjointUnionSize(a, b);
    DisjointUnionSize(a + b, c);
    BoxSize(xs, xs);
    BoxSize(ys, Beside());
    BoxSize(Beside(), ys);
    SpanFacts(ver);
    if ver >= 2 {
      AlignmentArithmetic(NumAlign(ver), |xs|, |ys|);
    }
  }

  lemma AlignmentsDisjoint(ver: int)
    requires IsVersion(ver)
    ensures Box(Span(ver), Span(ver)) !! Box(InnerSpan(ver), Beside())
    ensures Box(Span(ver), Span(ver)) + Box(InnerSpan(ver), Beside()) !! Box(Beside(), InnerSpan(ver))
  {
    hide Span, InnerSpan, Box, Range;
    SpanFacts(ver);
  }

  lemma AlignmentArithmetic(n: int, x: int, y: int)
    requires x == 5 * (n - 1) && y == 5 * (n - 2)
    ensures x * x + y * 4 + 4 * y == (25 * n - 10) * n - 55
  {
  }

  lemma VersionInfoSize(ver: int)
    requires IsVersion(ver)
    ensures |VersionInfo(ver)| == if ver >= 7 then 36 else 0
  {
    hide Rectangle;
    if ver >= 7 {
      var n := Size(ver);
      RectangleSize(n - 11, n - 8, 0, 6, 3, 6);
      RectangleSize(0, 6, n - 11, n - 8, 6, 3);
      DisjointUnionSize(Rectangle(n - 11, n - 8, 0, 6), Rectangle(0, 6, n - 11, n - 8));
    }
  }

  lemma RegionsDisjoint(ver: int)
    requires IsVersion(ver)
    ensures Finders(ver) !! Timing(ver)
    ensures Finders(ver) + Timing(ver) !! Alignments(ver)
    ensures Finders(ver) + Timing(ver) + Alignments(ver) !! VersionInfo(ver)
  {
    hide Span, InnerSpan, Box, Rectangle;
    SpanFacts(ver);
  }

  /** The free modules of a symbol. */
  ghost function FreeSet(ver: int): (s: set<Cell>)
    requires IsVersion(ver)
  {
    Rectangle(0, Size(ver), 0, Size(ver)) - FunctionCells(ver)
  }

  lemma FunctionCellsSize(ver: int)
    requires IsVersion(ver)
    ensures |FunctionCells(ver)| == |Finders(ver)| + |Timing(ver)| + |Alignments(ver)| + |VersionInfo(ver)|
  {
    hide Finders, Timing, Alignments, VersionInfo;
    RegionsDisjoint(ver);
    DisjointUnionSize(Finders(ver), Timing(ver));
    DisjointUnionSize(Finders(ver) + Timing(ver), Alignments(ver));
    DisjointUnionSize(Finders(ver) + Timing(ver) + Alignments(ver), VersionInfo(ver));
  }

  lemma FunctionCellsInside(ver: int)
    requires IsVersion(ver)
    ensures FunctionCells(ver) <= Rectangle(0, Size(ver), 0, Size(ver))
  {
    hide FunctionCells, Rectangle, IsFunctionModule;
    forall c | c in FunctionCells(ver)
      ensures c in Rectangle(0, Size(ver), 0, Size(ver))
    {
      FunctionCellsMember(ver, c);
    }
  }

  lemma SetMinusSize<T>(s: set<T>, t: set<T>)
    requires t <= s
    ensures |s - t| == |s| - |t|
  {
  }

  /** The function patterns leave exactly as many modules free as the capacity formula says. */
  lemma FreeModuleCount(ver: int)
    requires IsVersion(ver)
    ensures |FreeSet(ver)| == RawDataModules(ver)
  {
    hide FunctionCells, Finders, Timing, Alignments, VersionInfo, Rectangle, NumAlign;
    var n := Size(ver);
    RectangleSize(0, n, 0, n, n, n);
    FunctionCellsInside(ver);
    SetMinusSize(Rectangle(0, n, 0, n), FunctionCells(ver));
    FunctionCellsSize(ver);
    FindersSize(ver);
    TimingSize(ver);
    AlignmentsSize(ver);
    VersionInfoSize(ver);
    CountArithmetic(ver);
  }

  lemma CountArithmetic(ver: int)
    ensures Size(ver) * Size(ver) - 225 - 8 * ver == (16 * ver + 128) * ver + 64
  {
    assert Size(ver) * Size(ver) == 16 * ver * ver + 136 * ver + 289;
  }

  lemma {:induction false} AlignApart(ver: int, i: nat, j: nat)
    requires 2 <= ver <= 40 && i < j < NumAlign(ver)
    ensures AlignPosition(ver, i) + 5 <= AlignPosition(ver, j)
  {
    hide AlignPosition, AlignStep, NumAlign;
    AlignSpacing(ver);
    FirstAlign(ver);
    if j == 1 {
    } else {
      AlignPositionStep(ver, j - 1);
      if i < j - 1 {
        AlignApart(ver, i, j - 1);
      }
    }
  }

  lemma FirstAlign(ver: int)
    requires 2 <= ver
    ensures AlignPosition(ver, 0) == 6
  {
  }

  lemma AlignBounds(ver: int, i: nat)
    requires 2 <= ver <= 40 && i < NumAlign(ver)
    ensures 6 <= AlignPosition(ver, i) <= Size(ver) - 7
  {
    hide AlignPosition, AlignStep, NumAlign;
    FirstAlign(ver);
    LastAlign(ver);
    if i != 0 {
      AlignApart(ver, 0, i);
    }
    if i != NumAlign(ver) - 1 {
      AlignApart(ver, i, NumAlign(ver) - 1);
    }
  }

  /** A coordinate belongs to at most one alignment pattern. */
  lemma NearUnique(ver: int, t: int, i: nat, j: nat)
    requires 2 <= ver <= 40 && i < NumAlign(ver) && j < NumAlign(ver)
    requires Near(ver, t, i) && Near(ver, t, j)
    ensures i == j
  {
    hide AlignPosition;
    if i < j {
      AlignApart(ver, i, j);
    } else if j < i {
      AlignApart(ver, j, i);
    }
  }
}
