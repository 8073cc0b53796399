/**
What a finished symbol looks like on its function modules, whatever the data and the mask: no
pattern is damaged by one drawn later, by the codewords or by the mask.
*/
module SymbolStructure {
  import opened Arithmetic
  import opened Bits
  import opened BitStrings
  import opened Grids
  import opened Sets
  import opened Placement
  import opened Tables
  import opened SymbolGeometry
  import opened Patterns
  import opened CheckBits
  import opened InfoPatterns
  import opened FunctionPatterns
  import opened Masking
  import opened MaskPictures
  import opened QrCodes
  import opened Zigzag

  /** Codewords and mask leave the function modules alone; only the format bits are redrawn. */
  lemma FunctionModulesKept(ver: int, ecl: Ecc, data: seq<Byte>, msk: nat, c: Cell)
    requires IsVersion(ver) && |data| == DataCodewords(ver, ecl)
    requires Inside(c, Size(ver)) && IsFunctionModule(ver, c)
    ensures At(FinishedSymbol(ver, ecl, data, msk), c) ==
            if c in FormatRegion(Size(ver)) then FormatColour(Size(ver), FormatWord(ecl, msk))(c)
            else At(PatternColours(Blank(Size(ver)), ver, ecl), c)
  {
    hide FunctionMap, IsFunctionModule, PatternColours, PlaceBits, AllCodewords, DataPath, Unpack, Masked, Paint, FormatWord,
         RawDataModules, DataCodewords, Inverts, FormatIndex;
    OffPath(ver, c);
    PlacedAt(PatternColours(Blank(Size(ver)), ver, ecl), DataPath(ver), Unpack(AllCodewords(ver, ecl, data)), c);
  }

  lemma OffPath(ver: int, c: Cell)
    requires IsVersion(ver) && IsFunctionModule(ver, c)
    ensures c !in DataPath(ver)
  {
    hide FunctionCells, FunctionMap, IsFunctionModule, Rectangle, FreePath;
    FreePathMember(ver, c);
    FunctionCellsMember(ver, c);
  }

  /** The colour of a function module before the format bits are redrawn, by the last pattern drawn over it. */
  lemma PatternColoursAt(ver: int, ecl: Ecc, c: Cell)
    requires IsVersion(ver) && Inside(c, Size(ver))
    ensures var n := Size(ver);
            At(PatternColours(Blank(n), ver, ecl), c) ==
            if ver >= 7 && c in VersionRegion(n) then VersionColour(n, VersionWord(ver))(c)
            else if c in FormatRegion(n) then FormatColour(n, FormatWord(ecl, 0))(c)
            else if c in AlignmentRegion(ver) then AlignmentsColour(ver)(c)
            else if c in Block(3, n - 4, 4) then FinderColour(3, n - 4)(c)
            else if c in Block(n - 4, 3, 4) then FinderColour(n - 4, 3)(c)
            else if c in Block(3, 3, 4) then FinderColour(3, 3)(c)
            else c in TimingRegion() && TimingColour()(c)
  {
    hide Paint, FormatRegion, FormatColour, FormatWord, VersionRegion, VersionColour, VersionWord, AlignmentRegion,
         AlignmentsColour, Block, FinderColour, TimingRegion, TimingColour;
  }

  /** A finder pattern with its separator. */
  const FINDER_PICTURE: seq<string> := [
    ".........",
    ".#######.",
    ".#.....#.",
    ".#.###.#.",
    ".#.###.#.",
    ".#.###.#.",
    ".#.....#.",
    ".#######.",
    "........."
  ]

  /** An alignment pattern. */
  const ALIGNMENT_PICTURE: seq<string> := [
    "#####",
    "#...#",
    "#.#.#",
    "#...#",
    "#####"
  ]

  /** Whether a picture shows a black module in column dx and row dy. */
  predicate Dark(picture: seq<string>, dx: int, dy: int)
  {
    0 <= dy < |picture| && 0 <= dx < |picture[dy]| && picture[dy][dx] == '#'
  }

  lemma FinderPictured(x: int, y: int, c: Cell)
    requires Dist(c, x, y) <= 4
    ensures FinderColour(x, y)(c) == Dark(FINDER_PICTURE, c.x - x + 4, c.y - y + 4)
  {
  }

  lemma AlignmentPictured(x: int, y: int, c: Cell)
    requires Dist(c, x, y) <= 2
    ensures AlignmentColour(x, y)(c) == Dark(ALIGNMENT_PICTURE, c.x - x + 2, c.y - y + 2)
  {
  }

  /** All three finder patterns with their separators are complete. */
  lemma FindersIntact(ver: int, ecl: Ecc, data: seq<Byte>, msk: nat, x: int, y: int, c: Cell)
    requires IsVersion(ver) && |data| == DataCodewords(ver, ecl) && Inside(c, Size(ver))
    requires (x, y) == (3, 3) || (x, y) == (Size(ver) - 4, 3) || (x, y) == (3, Size(ver) - 4)
    requires Dist(c, x, y) <= 4
    ensures At(FinishedSymbol(ver, ecl, data, msk), c) == Dark(FINDER_PICTURE, c.x - x + 4, c.y - y + 4)
  {
    hide FinishedSymbol, PatternColours, FormatColour, FormatWord, VersionColour, VersionWord, AlignmentsColour,
         DataCodewords, InAlignment, TimingColour, Dark, FormatRegion, VersionRegion, AlignmentRegion, InCorner, IsFunctionModule;
    FinderPictured(x, y, c);
    FinderAlone(ver, x, y, c);
    FunctionModulesKept(ver, ecl, data, msk, c);
    PatternColoursAt(ver, ecl, c);
  }

  /** Nothing else is drawn on a finder pattern after it. */
  lemma FinderAlone(ver: int, x: int, y: int, c: Cell)
    requires IsVersion(ver) && Inside(c, Size(ver))
    requires (x, y) == (3, 3) || (x, y) == (Size(ver) - 4, 3) || (x, y) == (3, Size(ver) - 4)
    requires Dist(c, x, y) <= 4
    ensures IsFunctionModule(ver, c)
    ensures c !in FormatRegion(Size(ver)) && c !in VersionRegion(Size(ver)) && c !in AlignmentRegion(ver)
  {
    hide InAlignment;
    AlignmentsMember(ver, c);
  }

  lemma AlignmentColoured(ver: int, ecl: Ecc, data: seq<Byte>, msk: nat, i: nat, j: nat, c: Cell)
    requires 2 <= ver <= 40 && |data| == DataCodewords(ver, ecl) && Inside(c, Size(ver))
    requires HasAlignment(ver, i, j) && Dist(c, AlignPosition(ver, i), AlignPosition(ver, j)) <= 2
    ensures At(FinishedSymbol(ver, ecl, data, msk), c) == AlignmentColour(AlignPosition(ver, i), AlignPosition(ver, j))(c)
  {
    hide FinishedSymbol, PatternColours, FormatColour, FormatWord, VersionColour, VersionWord, AlignmentsColour,
         DataCodewords, AlignPosition, TimingColour, NumAlign;
    assert Near(ver, c.x, i) && Near(ver, c.y, j);
    assert InAlignment(ver, c);
    AlignmentsMember(ver, c);
    FunctionModulesKept(ver, ecl, data, msk, c);
    PatternColoursAt(ver, ecl, c);
    AlignmentsColourIs(ver, i, j, c);
  }

  /** Every alignment pattern is complete, also those across a timing pattern. */
  lemma AlignmentIntact(ver: int, ecl: Ecc, data: seq<Byte>, msk: nat, i: nat, j: nat, c: Cell)
    requires 2 <= ver <= 40 && |data| == DataCodewords(ver, ecl) && Inside(c, Size(ver))
    requires HasAlignment(ver, i, j) && Dist(c, AlignPosition(ver, i), AlignPosition(ver, j)) <= 2
    ensures At(FinishedSymbol(ver, ecl, data, msk), c)
            == Dark(ALIGNMENT_PICTURE, c.x - AlignPosition(ver, i) + 2, c.y - AlignPosition(ver, j) + 2)
  {
    hide FinishedSymbol, DataCodewords, AlignPosition, NumAlign, Dark, AlignmentColour, HasAlignment, Dist;
    AlignmentColoured(ver, ecl, data, msk, i, j, c);
    AlignmentPictured(AlignPosition(ver, i), AlignPosition(ver, j), c);
  }

  /** Between the finder patterns the timing patterns alternate without a break, also through alignment patterns. */
  lemma TimingIntact(ver: int, ecl: Ecc, data: seq<Byte>, msk: nat, c: Cell)
    requires IsVersion(ver) && |data| == DataCodewords(ver, ecl) && Inside(c, Size(ver))
    requires OnTiming(c) && !InCorner(ver, c)
    ensures At(FinishedSymbol(ver, ecl, data, msk), c) == ((c.x + c.y) % 2 == 0)
  {
    hide FinishedSymbol, PatternColours, FormatColour, FormatWord, VersionColour, VersionWord, AlignmentsColour,
         DataCodewords, InAlignment;
    FunctionModulesKept(ver, ecl, data, msk, c);
    PatternColoursAt(ver, ecl, c);
    OnlyFromVersionTwo(ver, c);
    if InAlignment(ver, c) {
      TimingThroughAlignment(ver, c);
    }
  }

  lemma OnlyFromVersionTwo(ver: int, c: Cell)
    ensures InAlignment(ver, c) ==> ver >= 2
  {
  }

  lemma EvenStep(ver: int)
    requires 2 <= ver
    ensures AlignStep(ver) % 2 == 0
  {
  }

  lemma {:induction false} EvenPositions(ver: int, i: nat)
    requires 2 <= ver <= 40 && i < NumAlign(ver)
    ensures AlignPosition(ver, i) % 2 == 0
    decreases NumAlign(ver) - i
  {
    hide NumAlign, AlignPosition, AlignStep;
    if i == 0 {
      FirstAlign(ver);
    } else if i == NumAlign(ver) - 1 {
      LastAlign(ver);
    } else {
      EvenPositions(ver, i + 1);
      EvenStep(ver);
      AlignPositionStep(ver, i);
    }
  }

  lemma LaterPositions(ver: int, i: nat)
    requires 2 <= ver <= 40 && 0 < i < NumAlign(ver)
    ensures AlignPosition(ver, i) >= 11
  {
    hide NumAlign, AlignPosition;
    AlignSpacing(ver);
    if i > 1 {
      AlignApart(ver, 1, i);
    }
  }

  lemma TimingThroughAlignment(ver: int, c: Cell)
    requires 2 <= ver <= 40 && OnTiming(c) && InAlignment(ver, c)
    ensures AlignmentsColour(ver)(c) == ((c.x + c.y) % 2 == 0)
  {
    hide AlignPosition, NumAlign, AlignmentsColour;
    var i, j :| HasAlignment(ver, i, j) && Near(ver, c.x, i) && Near(ver, c.y, j);
    EvenPositions(ver, i);
    EvenPositions(ver, j);
    FirstAlign(ver);
    if i > 0 {
      LaterPositions(ver, i);
    }
    if j > 0 {
      LaterPositions(ver, j);
    }
    AlignmentsColourIs(ver, i, j, c);
  }

  //////////////////////////////////////////////////////////////////////////////
  // Data
  //////////////////////////////////////////////////////////////////////////////

  /** The modules of a symbol in scan order. */
  function SymbolScan(ver: int): (cells: seq<Cell>)
    requires IsVersion(ver)
    ensures AllInside(cells, Size(ver))
  {
    SizeFacts(ver);
    ScanInside(Size(ver));
    Scan(Size(ver), Size(ver) - 1)
  }

  /** The scan meets a module at step t that is not a function module. */
  ghost predicate IsDataStep(ver: int, t: int)
    requires IsVersion(ver)
  {
    0 <= t < |SymbolScan(ver)| && !IsFunctionModule(ver, SymbolScan(ver)[t])
  }

  /** The number of data modules that the scan meets before step k. */
  ghost function DataStepsBefore(ver: int, k: nat): (n: nat)
    requires IsVersion(ver)
  {
    |set t | 0 <= t < k && IsDataStep(ver, t)|
  }

  lemma StepsAreFree(ver: int, k: nat)
    requires IsVersion(ver) && k <= |SymbolScan(ver)|
    ensures |FreeSteps(FunctionMap(ver), SymbolScan(ver), k)| == DataStepsBefore(ver, k)
  {
    hide SymbolScan, FunctionMap, IsFunctionModule;
    assert FreeSteps(FunctionMap(ver), SymbolScan(ver), k) == set t | 0 <= t < k && IsDataStep(ver, t);
  }

  lemma PathAt(ver: int, k: nat)
    requires IsVersion(ver) && IsDataStep(ver, k)
    ensures DataStepsBefore(ver, k) < |DataPath(ver)| && DataPath(ver)[DataStepsBefore(ver, k)] == SymbolScan(ver)[k]
  {
    hide FunctionMap, IsFunctionModule, Scan, Free, FreeSteps, RawDataModules, DataStepsBefore;
    SizeFacts(ver);
    FreeAt(FunctionMap(ver), SymbolScan(ver), k);
    StepsAreFree(ver, k);
  }

  /** Bit i of a sequence of codewords, most significant bit of each first; white when there are no more. */
  predicate CodewordBit(codewords: seq<Byte>, i: nat)
  {
    i < 8 * |codewords| && GetBit(codewords[i / 8], 7 - i % 8)
  }

  lemma BaseShown(ver: int, ecl: Ecc, data: seq<Byte>, k: nat)
    requires IsVersion(ver) && |data| == DataCodewords(ver, ecl) && IsDataStep(ver, k)
    ensures At(BaseGrid(ver, ecl, data), SymbolScan(ver)[k]) == CodewordBit(AllCodewords(ver, ecl, data), DataStepsBefore(ver, k))
  {
    hide DataPath, SymbolScan, IsFunctionModule, PatternColours, PlaceBits, AllCodewords, RawDataModules, DataCodewords,
         GetBit, DataStepsBefore;
    var path, i, c := DataPath(ver), DataStepsBefore(ver, k), SymbolScan(ver)[k];
    var g, bits := PatternColours(Blank(Size(ver)), ver, ecl), Unpack(AllCodewords(ver, ecl, data));
    PathAt(ver, k);
    PlacedAt(g, path, bits, c);
    WhiteBefore(ver, ecl, c);
    if i >= |bits| {
      NotBefore(path, i, |bits|);
    }
  }

  /**
  The data modules of a finished symbol: the module that the scan meets at step k, if it is no
  function module, shows the codeword bit whose number is the count of such modules met before, with
  the picture of the mask over it.
  */
  lemma DataShown(ver: int, ecl: Ecc, data: seq<Byte>, msk: nat, k: nat)
    requires IsVersion(ver) && |data| == DataCodewords(ver, ecl) && IsDataStep(ver, k)
    ensures var c := SymbolScan(ver)[k];
            At(FinishedSymbol(ver, ecl, data, msk), c)
            == (CodewordBit(AllCodewords(ver, ecl, data), DataStepsBefore(ver, k)) != Shaded(msk, c.x, c.y))
  {
    hide FunctionMap, IsFunctionModule, BaseGrid, AllCodewords, Masked, Paint, FormatWord, DataCodewords, Inverts, Shaded,
         SymbolScan, DataStepsBefore, CodewordBit, FormatRegion;
    var c := SymbolScan(ver)[k];
    BaseShown(ver, ecl, data, k);
    ShadedIsInverts(msk, c.x, c.y);
    OffFormat(ver, c);
  }

  lemma OffFormat(ver: int, c: Cell)
    requires IsVersion(ver) && Inside(c, Size(ver)) && !IsFunctionModule(ver, c)
    ensures c !in FormatRegion(Size(ver))
  {
    hide FunctionMap, IsFunctionModule, FormatRegion;
    FormatIsMarked(ver);
  }

  lemma WhiteBefore(ver: int, ecl: Ecc, c: Cell)
    requires IsVersion(ver) && Inside(c, Size(ver)) && !IsFunctionModule(ver, c)
    ensures !At(PatternColours(Blank(Size(ver)), ver, ecl), c)
  {
    hide PatternColours, FormatColour, FormatWord, VersionColour, VersionWord, AlignmentsColour, FinderColour, TimingColour,
         IsFunctionModule, AlignmentRegion, FormatRegion, VersionRegion, Block, TimingRegion;
    PatternColoursAt(ver, ecl, c);
    RegionsAre(ver, c);
  }

  lemma NotBefore(path: seq<Cell>, i: nat, n: nat)
    requires Distinct(path) && n <= i < |path|
    ensures path[i] !in path[..n]
  {
  }

  //////////////////////////////////////////////////////////////////////////////
  // Format and version information
  //////////////////////////////////////////////////////////////////////////////

  /** Where a reader finds bit i of the first copy of the format information. */
  function FirstCopy(i: nat): (c: Cell)
    requires i < 15
  {
    if i <= 5 then Cell(8, i) else if i == 6 then Cell(8, 7) else if i == 7 then Cell(8, 8) else if i == 8 then Cell(7, 8)
    else Cell(14 - i, 8)
  }

  /** Where a reader finds bit i of the second copy. */
  function SecondCopy(n: int, i: nat): (c: Cell)
    requires i < 15
  {
    if i < 8 then Cell(n - 1 - i, 8) else Cell(8, n - 15 + i)
  }

  /** Both copies show the format word, and the module above the second copy is always black. */
  lemma FormatShown(ver: int, ecl: Ecc, data: seq<Byte>, msk: nat, i: nat)
    requires IsVersion(ver) && |data| == DataCodewords(ver, ecl) && i < 15
    ensures var g, n := FinishedSymbol(ver, ecl, data, msk), Size(ver);
            && Inside(FirstCopy(i), n) && At(g, FirstCopy(i)) == GetBit(FormatWord(ecl, msk), i)
            && Inside(SecondCopy(n, i), n) && At(g, SecondCopy(n, i)) == GetBit(FormatWord(ecl, msk), i)
            && Inside(Cell(8, n - 8), n) && At(g, Cell(8, n - 8))
  {
    hide FinishedSymbol, PatternColours, FormatWord, DataCodewords, GetBit, InAlignment;
    FunctionModulesKept(ver, ecl, data, msk, FirstCopy(i));
    FunctionModulesKept(ver, ecl, data, msk, SecondCopy(Size(ver), i));
    FunctionModulesKept(ver, ecl, data, msk, Cell(8, Size(ver) - 8));
  }

  /** The second copy of the format bits, most significant first, as a reader collects them. */
  function SecondFormatBits(g: Grid): (bits: seq<bool>)
    requires Square(g, |g|) && |g| >= 21
    ensures |bits| == 15
  {
    seq(15, i requires 0 <= i < 15 => At(g, SecondCopy(|g|, 14 - i)))
  }

  /** Both copies of the format bits of every finished symbol read as the same word. */
  lemma FormatCopiesAgree(ver: int, ecl: Ecc, data: seq<Byte>, msk: nat)
    requires IsVersion(ver) && |data| == DataCodewords(ver, ecl) && msk < 8
    ensures var g := FinishedSymbol(ver, ecl, data, msk);
            ValueOf(SecondFormatBits(g)) == ReadFormat(g) == FormatWord(ecl, msk)
  {
    hide FinishedSymbol, FormatWord, DataCodewords, GetBit, ValueOf, Pow2, FormatCell;
    var g := FinishedSymbol(ver, ecl, data, msk);
    forall i | 0 <= i < 15
      ensures SecondFormatBits(g)[i] == GetBit(FormatWord(ecl, msk), 14 - i)
    {
      FormatShown(ver, ecl, data, msk, 14 - i);
    }
    forall k | 0 <= k < 15
      ensures Inside(FormatCell(|g|, k), |g|) && At(g, FormatCell(|g|, k)) == GetBit(FormatWord(ecl, msk), k)
    {
      FormatShown(ver, ecl, data, msk, k);
      FirstCopyIs(|g|, k);
    }
    FormatConstants();
    FormatWordBound(ecl, msk);
    WordOfBits(SecondFormatBits(g), FormatWord(ecl, msk));
    ReadFormatInverts(g, FormatWord(ecl, msk));
  }

  lemma FirstCopyIs(n: int, k: nat)
    requires k < 15
    ensures FirstCopy(k) == FormatCell(n, k)
  {
  }

  /** Where a reader finds bit i of the version information: top right or, transposed, bottom left. */
  function VersionCell(n: int, i: nat, transposed: bool): (c: Cell)
    requires n >= 21 && i < 18
    ensures Inside(c, n)
  {
    if transposed then Cell(i / 3, n - 11 + i % 3) else Cell(n - 11 + i % 3, i / 3)
  }

  /** Both copies of the version information show the version word. */
  lemma VersionShown(ver: int, ecl: Ecc, data: seq<Byte>, msk: nat, i: nat, transposed: bool)
    requires 7 <= ver <= 40 && |data| == DataCodewords(ver, ecl) && i < 18
    ensures At(FinishedSymbol(ver, ecl, data, msk), VersionCell(Size(ver), i, transposed)) == GetBit(VersionWord(ver), i)
  {
    hide FinishedSymbol, PatternColours, FormatColour, FormatWord, VersionWord, DataCodewords, GetBit, InAlignment,
         AlignmentsColour, FinderColour, TimingColour;
    var c := VersionCell(Size(ver), i, transposed);
    VersionSteps(Size(ver), i);
    FunctionModulesKept(ver, ecl, data, msk, c);
    PatternColoursAt(ver, ecl, c);
  }

  /** A copy of the version bits, most significant first, as a reader collects them. */
  function VersionBits(g: Grid, transposed: bool): (bits: seq<bool>)
    requires Square(g, |g|) && |g| >= 21
    ensures |bits| == 18
  {
    seq(18, i requires 0 <= i < 18 => At(g, VersionCell(|g|, 17 - i, transposed)))
  }

  /** From version 7 on, both copies of the version information begin with the version number. */
  lemma VersionReadsBack(ver: int, ecl: Ecc, data: seq<Byte>, msk: nat, transposed: bool)
    requires 7 <= ver <= 40 && |data| == DataCodewords(ver, ecl)
    ensures ValueOf(VersionBits(FinishedSymbol(ver, ecl, data, msk), transposed)) / 4096 == ver
  {
    hide FinishedSymbol, VersionWord, DataCodewords, GetBit, ValueOf, Pow2, VersionCell;
    var g := FinishedSymbol(ver, ecl, data, msk);
    forall i | 0 <= i < 18
      ensures VersionBits(g, transposed)[i] == GetBit(VersionWord(ver), 17 - i)
    {
      VersionShown(ver, ecl, data, msk, 17 - i, transposed);
    }
    VersionConstants();
    VersionWordInverts(ver);
    WordOfBits(VersionBits(g, transposed), VersionWord(ver));
  }
}
