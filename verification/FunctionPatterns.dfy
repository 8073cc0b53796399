/**
All function patterns of a symbol together.  Drawing them marks exactly the function modules of
the version, so the free path of the symbol has as many modules as the capacity formula says.
*/
module FunctionPatterns {
  import opened Grids
  import opened Sets
  import opened Zigzag
  import opened Placement
  import opened Tables
  import opened SymbolGeometry
  import opened Patterns
  import opened CheckBits
  import opened InfoPatterns

  /** Drawing a second region in colours that the first colouring agrees with. */
  lemma DrawnMore(g: Grid, f: Grid, g': Grid, f': Grid, g'': Grid, f'': Grid,
                  region: iset<Cell>, colour: Cell -> bool, more: iset<Cell>, colour': Cell -> bool)
    requires Square(g, |g|) && Square(f, |f|)
    requires Drawn(g, f, g', f', region, colour)
    requires Drawn(g', f', g'', f'', more, colour')
    requires forall c :: c in more ==> colour(c) == colour'(c)
    ensures Drawn(g, f, g'', f'', region + more, colour)
  {
    hide Paint;
    PaintMore(g, region, colour, more, colour');
    PaintMore(f, region, Black(), more, Black());
  }

  lemma AlignedStart(ver: int)
    requires IsVersion(ver)
    ensures AlignedUpTo(ver, 0, 0) == iset{}
    ensures AlignedUpTo(ver, NumAlign(ver), 0) == AlignmentRegion(ver)
  {
    hide Near, NumAlign;
  }

  lemma AlignedRow(ver: int, i: int)
    requires IsVersion(ver)
    ensures AlignedUpTo(ver, i, NumAlign(ver)) == AlignedUpTo(ver, i + 1, 0)
  {
    hide Near, NumAlign;
  }

  /** Draws the alignment patterns, leaving out the three that would lie on finder patterns. */
  method DrawAlignmentPatterns(modules: array2<bool>, isFunction: array2<bool>, ver: int)
    requires SameSquare(modules, isFunction) && IsVersion(ver) && modules.Length0 == Size(ver)
    modifies modules, isFunction
    ensures Drawn(old(Snapshot(modules)), old(Snapshot(isFunction)), Snapshot(modules), Snapshot(isFunction),
                  AlignmentRegion(ver), AlignmentsColour(ver))
  {
    hide Drawn, AlignedUpTo, AlignmentRegion, AlignmentsColour, AlignmentColour, Block, AlignPosition, NumAlign;
    var alignPatPos := GetAlignmentPatternPositions(ver);
    var numAlign := |alignPatPos|;
    ghost var g, f, colour := Snapshot(modules), Snapshot(isFunction), AlignmentsColour(ver);
    DrawnNothing(g, f, colour);
    AlignedStart(ver);
    for i := 0 to numAlign
      invariant Drawn(g, f, Snapshot(modules), Snapshot(isFunction), AlignedUpTo(ver, i, 0), colour)
    {
      for j := 0 to numAlign
        invariant Drawn(g, f, Snapshot(modules), Snapshot(isFunction), AlignedUpTo(ver, i, j), colour)
      {
        FirstVersionHasNone(ver);
        AlignedNext(ver, i, j);
        if !((i == 0 && j == 0) || (i == 0 && j == numAlign - 1) || (i == numAlign - 1 && j == 0)) {
          ghost var g', f' := Snapshot(modules), Snapshot(isFunction);
          var x, y := alignPatPos[i], alignPatPos[j];
          DrawAlignmentPattern(modules, isFunction, x, y);
          forall c | c in Block(x, y, 2)
            ensures colour(c) == AlignmentColour(x, y)(c)
          {
            AlignmentsColourIs(ver, i, j, c);
          }
          DrawnMore(g, f, g', f', Snapshot(modules), Snapshot(isFunction), AlignedUpTo(ver, i, j), colour,
                    Block(x, y, 2), AlignmentColour(x, y));
        }
      }
      AlignedRow(ver, i);
    }
  }

  lemma FirstVersionHasNone(ver: int)
    requires IsVersion(ver)
    ensures NumAlign(ver) > 0 ==> ver >= 2
  {
  }

  //////////////////////////////////////////////////////////////////////////////
  // All patterns
  //////////////////////////////////////////////////////////////////////////////

  /** The colours after all function patterns have been drawn in turn, with the format bits of mask 0. */
  ghost function PatternColours(g: Grid, ver: int, ecl: Ecc): (r: Grid)
    requires IsVersion(ver) && Square(g, Size(ver))
    ensures Square(r, Size(ver))
  {
    var n := Size(ver);
    var timing := Paint(g, TimingRegion(), TimingColour());
    var topLeft := Paint(timing, Block(3, 3, 4), FinderColour(3, 3));
    var topRight := Paint(topLeft, Block(n - 4, 3, 4), FinderColour(n - 4, 3));
    var bottomLeft := Paint(topRight, Block(3, n - 4, 4), FinderColour(3, n - 4));
    var aligned := Paint(bottomLeft, AlignmentRegion(ver), AlignmentsColour(ver));
    var format := Paint(aligned, FormatRegion(n), FormatColour(n, FormatWord(ecl, 0)));
    if ver < 7 then format else Paint(format, VersionRegion(n), VersionColour(n, VersionWord(ver)))
  }

  ghost function PatternMarks(f: Grid, ver: int): (r: Grid)
    requires IsVersion(ver) && Square(f, Size(ver))
    ensures Square(r, Size(ver))
  {
    var n := Size(ver);
    var timing := Paint(f, TimingRegion(), Black());
    var topLeft := Paint(timing, Block(3, 3, 4), Black());
    var topRight := Paint(topLeft, Block(n - 4, 3, 4), Black());
    var bottomLeft := Paint(topRight, Block(3, n - 4, 4), Black());
    var aligned := Paint(bottomLeft, AlignmentRegion(ver), Black());
    var format := Paint(aligned, FormatRegion(n), Black());
    if ver < 7 then format else Paint(format, VersionRegion(n), Black())
  }

  /** The grid that marks the function modules of a version. */
  ghost function FunctionMap(ver: int): (f: Grid)
    requires IsVersion(ver)
    ensures Square(f, Size(ver))
    ensures forall c :: Inside(c, Size(ver)) ==> At(f, c) == IsFunctionModule(ver, c)
  {
    seq(Size(ver), y requires 0 <= y < Size(ver) =>
      seq(Size(ver), x requires 0 <= x < Size(ver) => IsFunctionModule(ver, Cell(x, y))))
  }

  ghost function Blank(n: nat): (g: Grid)
    ensures Square(g, n)
    ensures forall c :: Inside(c, n) ==> !At(g, c)
  {
    seq(n, y => seq(n, x => false))
  }

  lemma PatternMarksAt(f: Grid, ver: int, c: Cell)
    requires IsVersion(ver) && Square(f, Size(ver)) && Inside(c, Size(ver))
    ensures At(PatternMarks(f, ver), c) ==
            (|| At(f, c) || c in TimingRegion()
             || c in Block(3, 3, 4) || c in Block(Size(ver) - 4, 3, 4) || c in Block(3, Size(ver) - 4, 4)
             || c in AlignmentRegion(ver) || c in FormatRegion(Size(ver)) || (ver >= 7 && c in VersionRegion(Size(ver))))
  {
    hide Paint, TimingRegion, Block, AlignmentRegion, FormatRegion, VersionRegion;
  }

  /** The regions drawn cover exactly the function modules. */
  lemma RegionsAre(ver: int, c: Cell)
    requires IsVersion(ver) && Inside(c, Size(ver))
    ensures IsFunctionModule(ver, c) <==>
            (|| c in TimingRegion()
             || c in Block(3, 3, 4) || c in Block(Size(ver) - 4, 3, 4) || c in Block(3, Size(ver) - 4, 4)
             || c in AlignmentRegion(ver) || c in FormatRegion(Size(ver)) || (ver >= 7 && c in VersionRegion(Size(ver))))
  {
    hide InAlignment;
  }

  /** Starting from an unmarked grid, the marks are the function modules of the version. */
  lemma PatternMarksAreFunctionModules(ver: int)
    requires IsVersion(ver)
    ensures PatternMarks(Blank(Size(ver)), ver) == FunctionMap(ver)
  {
    hide PatternMarks, FunctionMap, Blank, IsFunctionModule, TimingRegion, Block, AlignmentRegion, FormatRegion, VersionRegion;
    var n := Size(ver);
    forall c | Inside(c, n)
      ensures At(PatternMarks(Blank(n), ver), c) == At(FunctionMap(ver), c)
    {
      PatternMarksAt(Blank(n), ver, c);
      RegionsAre(ver, c);
    }
    SameGrid(PatternMarks(Blank(n), ver), FunctionMap(ver), n);
  }

  /** Draws and marks all function modules. */
  method DrawFunctionPatterns(modules: array2<bool>, isFunction: array2<bool>, ver: int, ecl: Ecc)
    requires SameSquare(modules, isFunction) && IsVersion(ver) && modules.Length0 == Size(ver)
    modifies modules, isFunction
    ensures Snapshot(modules) == PatternColours(old(Snapshot(modules)), ver, ecl)
    ensures Snapshot(isFunction) == PatternMarks(old(Snapshot(isFunction)), ver)
  {
    hide Paint, TimingRegion, Block, AlignmentRegion, FormatRegion, VersionRegion,
      TimingColour, FinderColour, AlignmentsColour, FormatColour, VersionColour, Black, FormatWord, VersionWord;
    var size := modules.Length0;
    DrawTimingPatterns(modules, isFunction);
    DrawFinderPattern(modules, isFunction, 3, 3);
    DrawFinderPattern(modules, isFunction, size - 4, 3);
    DrawFinderPattern(modules, isFunction, 3, size - 4);
    DrawAlignmentPatterns(modules, isFunction, ver);
    DrawFormatBits(modules, isFunction, ecl, 0);
    DrawVersion(modules, isFunction, ver);
  }

  //////////////////////////////////////////////////////////////////////////////
  // The free path
  //////////////////////////////////////////////////////////////////////////////

  lemma FreePathMember(ver: int, c: Cell)
    requires IsVersion(ver)
    ensures OnTrack(Size(ver) - 1)
    ensures c in FreePath(FunctionMap(ver)) <==> c in FreeSet(ver)
  {
    hide Free, Scan, FunctionMap, FunctionCells, InAlignment, InCorner, InVersionInfo, Box, Range;
    FirstPairUpward(ver);
    var n := Size(ver);
    ScanInside(n);
    ScanMember(n, n - 1, c);
    FreeMember(FunctionMap(ver), Scan(n, n - 1), c);
    FunctionCellsMember(ver, c);
  }

  /** The free path visits each free module once, and has exactly the length of the capacity formula. */
  lemma FreePathLength(ver: int)
    requires IsVersion(ver)
    ensures OnTrack(Size(ver) - 1)
    ensures Distinct(FreePath(FunctionMap(ver)))
    ensures |FreePath(FunctionMap(ver))| == RawDataModules(ver)
  {
    hide Free, Scan, FunctionMap, FreeSet, RawDataModules;
    FirstPairUpward(ver);
    var n := Size(ver);
    ScanInside(n);
    ScanDistinct(n, n - 1);
    FreeDistinct(FunctionMap(ver), Scan(n, n - 1));
    var path := FreePath(FunctionMap(ver));
    forall c
      ensures c in FreeSet(ver) <==> c in path
    {
      FreePathMember(ver, c);
    }
    DistinctSize(path, FreeSet(ver));
    FreeModuleCount(ver);
  }
}
