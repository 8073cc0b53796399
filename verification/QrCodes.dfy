/** The symbol object: construction from data codewords, masking included. */
module QrCodes {
  import opened Arithmetic
  import opened Bits
  import opened BitStrings
  import opened Results
  import opened Grids
  import opened Sets
  import opened Zigzag
  import opened Placement
  import opened Tables
  import opened SymbolGeometry
  import opened Patterns
  import opened InfoPatterns
  import opened FunctionPatterns
  import opened Interleaving
  import opened Penalty
  import opened Masking

  /** The block shape of a version and level. */
  function ShapeFor(ver: int, ecl: Ecc): (sh: Shape)
    requires IsVersion(ver)
    ensures sh.Valid() && sh.ecc <= 30
  {
    ShapeFits(ver, ecl);
    ShapeOf(NumBlocks(ver, ecl), EccPerBlock(ver, ecl), RawDataModules(ver) / 8)
  }

  lemma ShapeFits(ver: int, ecl: Ecc)
    requires IsVersion(ver)
    ensures 1 <= EccPerBlock(ver, ecl) <= 30 && NumBlocks(ver, ecl) >= 1
    ensures RawDataModules(ver) >= 0
    ensures EccPerBlock(ver, ecl) <= RawDataModules(ver) / 8 / NumBlocks(ver, ecl) <= 154
  {
    hide EccPerBlock, NumBlocks, RawDataModules;
    TableFacts(ver, ecl);
    QuotientBounds(RawDataModules(ver) / 8, NumBlocks(ver, ecl), EccPerBlock(ver, ecl), 155);
  }

  lemma QuotientBounds(raw: int, b: int, lo: int, hi: int)
    requires b >= 1 && lo >= 1 && b * lo <= raw < hi * b
    ensures lo <= raw / b < hi
  {
    var q, r := raw / b, raw % b;
    assert raw == b * q + r;
    assert b * (q + 1) == b * q + b;
    MulCancel(b, lo, q + 1);
    MulCancel(b, q, hi);
  }

  /** The shape uses up all raw codewords, and leaves the tabulated number for data. */
  lemma ShapeForTotals(ver: int, ecl: Ecc)
    requires IsVersion(ver)
    ensures ShapeFor(ver, ecl).RawTotal() == RawDataModules(ver) / 8
    ensures ShapeFor(ver, ecl).DataTotal() == DataCodewords(ver, ecl)
    ensures ShapeFor(ver, ecl).shortData + 1 + ShapeFor(ver, ecl).ecc <= 155
  {
    hide EccPerBlock, NumBlocks, RawDataModules;
    ShapeFits(ver, ecl);
    ShapeTotals(NumBlocks(ver, ecl), EccPerBlock(ver, ecl), RawDataModules(ver) / 8);
  }

  /** All codewords of a symbol in the order in which they are placed. */
  ghost function AllCodewords(ver: int, ecl: Ecc, data: seq<Byte>): (r: seq<Byte>)
    requires IsVersion(ver) && |data| == DataCodewords(ver, ecl)
    ensures |r| == RawDataModules(ver) / 8
  {
    ShapeForTotals(ver, ecl);
    InterleaveLength(ShapeFor(ver, ecl), data);
    Interleave(ShapeFor(ver, ecl), data)
  }

  lemma SizeFacts(ver: int)
    requires IsVersion(ver)
    ensures 21 <= Size(ver) <= 177 && Size(ver) % 2 == 1 && OnTrack(Size(ver) - 1)
  {
    FirstPairUpward(ver);
    assert Size(ver) == 2 * (2 * ver + 8) + 1;
  }

  /** The free modules of a version in the order in which they are filled. */
  ghost function DataPath(ver: int): (path: seq<Cell>)
    requires IsVersion(ver)
    ensures AllInside(path, Size(ver)) && Distinct(path) && |path| == RawDataModules(ver)
  {
    SizeFacts(ver);
    FreePathLength(ver);
    FreePath(FunctionMap(ver))
  }

  /** The modules before masking: function patterns and placed codewords. */
  ghost function BaseGrid(ver: int, ecl: Ecc, data: seq<Byte>): (g: Grid)
    requires IsVersion(ver) && |data| == DataCodewords(ver, ecl)
    ensures Square(g, Size(ver))
  {
    PlaceBits(PatternColours(Blank(Size(ver)), ver, ecl), DataPath(ver), Unpack(AllCodewords(ver, ecl, data)))
  }

  /** The finished symbol for given data codewords and mask. */
  ghost function FinishedSymbol(ver: int, ecl: Ecc, data: seq<Byte>, msk: nat): (g: Grid)
    requires IsVersion(ver) && |data| == DataCodewords(ver, ecl)
    ensures Square(g, Size(ver))
  {
    Symbol(BaseGrid(ver, ecl, data), FunctionMap(ver), ecl, msk)
  }

  lemma FormatIsMarked(ver: int)
    requires IsVersion(ver)
    ensures MarksFormat(FunctionMap(ver))
  {
    hide FunctionMap, IsFunctionModule, TimingRegion, Block, AlignmentRegion, FormatRegion, VersionRegion;
    forall c | Inside(c, Size(ver)) && c in FormatRegion(Size(ver))
      ensures At(FunctionMap(ver), c)
    {
      RegionsAre(ver, c);
    }
  }

  class QrCode {
    const version: int
    const size: int
    const errorCorrectionLevel: Ecc
    const modules: array2<bool>
    const isFunction: array2<bool>
    var mask: int

    ghost predicate Valid()
    {
      IsVersion(version) && size == Size(version) && SameSquare(modules, isFunction) && modules.Length0 == size
    }

    /** All modules white and none marked. */
    constructor (ver: int, ecl: Ecc)
      requires IsVersion(ver)
      ensures Valid() && version == ver && errorCorrectionLevel == ecl
      ensures fresh(modules) && fresh(isFunction)
      ensures Snapshot(modules) == Blank(size) && Snapshot(isFunction) == Blank(size)
    {
      version := ver;
      size := ver * 4 + 17;
      errorCorrectionLevel := ecl;
      mask := -1;
      modules := new bool[ver * 4 + 17, ver * 4 + 17]((y, x) => false);
      isFunction := new bool[ver * 4 + 17, ver * 4 + 17]((y, x) => false);
      new;
      SameGrid(Snapshot(modules), Blank(size), size);
      SameGrid(Snapshot(isFunction), Blank(size), size);
    }

    /** Draws the codewords of a symbol whose function modules are marked; with the right number of them there is room. */
    method DrawAllCodewords(data: seq<Byte>) returns (r: Result<()>)
      requires Valid() && Snapshot(isFunction) == FunctionMap(version)
      modifies modules
      ensures r == if |data| == RawDataModules(version) / 8 then Ok(()) else Err(InvalidArgument)
      ensures r.Ok? ==> Snapshot(modules) == PlaceBits(old(Snapshot(modules)), DataPath(version), Unpack(data))
      ensures r.Err? ==> Snapshot(modules) == old(Snapshot(modules))
    {
      hide FunctionMap, RawDataModules, FreePath, PlaceBits, Unpack;
      if |data| != RawDataModules(version) / 8 {
        return Err(InvalidArgument);
      }
      SizeFacts(version);
      FreePathLength(version);
      r := DrawCodewords(modules, isFunction, data);
    }

    /** Draws function patterns and codewords on the blank symbol. */
    method DrawBase(dataCodewords: seq<Byte>) returns (r: Result<()>)
      requires Valid()
      requires Snapshot(modules) == Blank(size) && Snapshot(isFunction) == Blank(size)
      modifies modules, isFunction
      ensures |dataCodewords| != DataCodewords(version, errorCorrectionLevel) ==> r == Err(InvalidArgument)
      ensures |dataCodewords| == DataCodewords(version, errorCorrectionLevel) ==>
                && r == Ok(())
                && Snapshot(modules) == BaseGrid(version, errorCorrectionLevel, dataCodewords)
                && Snapshot(isFunction) == FunctionMap(version)
    {
      hide PatternColours, PatternMarks, FunctionMap, RawDataModules, EccPerBlock, NumBlocks, Interleave, DataPath, PlaceBits, Unpack;
      DrawFunctionPatterns(modules, isFunction, version, errorCorrectionLevel);
      PatternMarksAreFunctionModules(version);
      ShapeFits(version, errorCorrectionLevel);
      var allCodewords := AddEccAndInterleave(dataCodewords, NumBlocks(version, errorCorrectionLevel),
                                              EccPerBlock(version, errorCorrectionLevel), RawDataModules(version) / 8);
      if allCodewords.Err? {
        return Err(allCodewords.error);
      }
      r := DrawAllCodewords(allCodewords.value);
    }

    /** Applies the forced mask, or the best one when msk is -1. */
    method Mask(msk: int)
      requires Valid() && -1 <= msk <= 7
      requires MarksFormat(Snapshot(isFunction))
      modifies this, modules, isFunction
      ensures 0 <= mask < 8
      ensures msk >= 0 ==> mask == msk
      ensures msk == -1 ==> BestMask(old(Snapshot(modules)), old(Snapshot(isFunction)), errorCorrectionLevel, mask)
      ensures Snapshot(modules) == Symbol(old(Snapshot(modules)), old(Snapshot(isFunction)), errorCorrectionLevel, mask)
      ensures Snapshot(isFunction) == old(Snapshot(isFunction))
    {
      hide WithFormat, Masked, Symbol, PenaltyScore, MarksFormat, BestMask, BeforeTrial;
      SizeFacts(version);
      ghost var base, f := Snapshot(modules), Snapshot(isFunction);
      var chosen := msk;
      if msk == -1 {
        chosen := ChooseMask(modules, isFunction, errorCorrectionLevel);
        BeforeLast(base, errorCorrectionLevel);
        Trial(base, f, errorCorrectionLevel, 8, chosen);
      } else {
        BeforeFirst(base, errorCorrectionLevel);
        Trial(base, f, errorCorrectionLevel, 0, chosen);
      }
      assert 0 <= chosen <= 7;
      mask := chosen;
      var applied := ApplyMask(modules, isFunction, chosen);
      RedrawFormat(modules, isFunction, errorCorrectionLevel, chosen);
    }
  }

  lemma BeforeLast(base: Grid, ecl: Ecc)
    requires Square(base, |base|)
    ensures BeforeTrial(base, ecl, 8) == WithFormat(base, ecl, 7)
  {
  }

  lemma BeforeFirst(base: Grid, ecl: Ecc)
    requires Square(base, |base|)
    ensures BeforeTrial(base, ecl, 0) == base
  {
  }

  /**
  Creates a symbol from data codewords.  It refuses exactly the versions, masks and data lengths
  that are out of range; no internal assertion ever fails.
  */
  method MakeQrCode(ver: int, ecl: Ecc, dataCodewords: seq<Byte>, msk: int) returns (r: Result<QrCode>)
    ensures !IsVersion(ver) || msk < -1 || msk > 7 ==> r == Err(DomainError)
    ensures IsVersion(ver) && -1 <= msk <= 7 && |dataCodewords| != DataCodewords(ver, ecl) ==> r == Err(InvalidArgument)
    ensures IsVersion(ver) && -1 <= msk <= 7 && |dataCodewords| == DataCodewords(ver, ecl) ==>
              && r.Ok? && r.value.Valid() && fresh(r.value)
              && r.value.version == ver && r.value.errorCorrectionLevel == ecl && 0 <= r.value.mask < 8
              && (msk >= 0 ==> r.value.mask == msk)
              && (msk == -1 ==> BestMask(BaseGrid(ver, ecl, dataCodewords), FunctionMap(ver), ecl, r.value.mask))
              && Snapshot(r.value.modules) == FinishedSymbol(ver, ecl, dataCodewords, r.value.mask)
  {
    hide BaseGrid, FunctionMap, Symbol, BestMask, MarksFormat, DataCodewords;
    if ver < MIN_VERSION || ver > MAX_VERSION {
      return Err(DomainError);
    }
    if msk < -1 || msk > 7 {
      return Err(DomainError);
    }
    var qr := new QrCode(ver, ecl);
    var drawn := qr.DrawBase(dataCodewords);
    if drawn.Err? {
      return Err(drawn.error);
    }
    FormatIsMarked(ver);
    qr.Mask(msk);
    return Ok(qr);
  }
}
