/**
Reading damaged symbols.  A reader that replaces every block by a codeword close enough to it gets
back the segments as long as no block has more wrong codewords than half its error correction
codewords, hence whenever few enough modules of the symbol have changed colour.
*/
module Damage {
  import opened Bits
  import opened BitStrings
  import opened Results
  import opened Grids
  import opened Sets
  import opened Placement
  import opened Tables
  import opened SymbolGeometry
  import opened CheckBits
  import opened InfoPatterns
  import opened FunctionPatterns
  import opened ReedSolomon
  import opened MinimumDistance
  import opened Interleaving
  import opened Masking
  import opened MaskPictures
  import opened QrCodes
  import opened Reader
  import opened Segments
  import opened SegmentStreams
  import opened Encoder
  import opened EndToEnd

  //////////////////////////////////////////////////////////////////////////////
  // Correction
  //////////////////////////////////////////////////////////////////////////////

  /** The received codewords can be corrected to those of the given data. */
  ghost predicate CorrectsTo(ver: int, ecl: Ecc, received: seq<Byte>, data: seq<Byte>)
    requires IsVersion(ver) && |received| == RawDataModules(ver) / 8
  {
    ShapeForTotals(ver, ecl);
    |data| == ShapeFor(ver, ecl).DataTotal() && Correctable(ver, ecl, received, data)
  }

  /** The data after error correction, if there is any close enough. */
  ghost function Correct(ver: int, ecl: Ecc, received: seq<Byte>): (r: Option<seq<Byte>>)
    requires IsVersion(ver) && |received| == RawDataModules(ver) / 8
  {
    if exists data :: CorrectsTo(ver, ecl, received, data) then
      var data :| CorrectsTo(ver, ecl, received, data);
      Some(data)
    else None
  }

  lemma CorrectFinds(ver: int, ecl: Ecc, received: seq<Byte>, data: seq<Byte>)
    requires IsVersion(ver) && |received| == RawDataModules(ver) / 8
    requires CorrectsTo(ver, ecl, received, data)
    ensures Correct(ver, ecl, received) == Some(data)
  {
    hide ShapeFor, Correctable;
    ShapeForTotals(ver, ecl);
    var found := Correct(ver, ecl, received).value;
    DamagedSymbol(ver, ecl, received, found, data);
  }

  /** The segments of a symbol after error correction, found from its modules alone. */
  ghost function ReadCorrecting(g: Grid): (r: Option<seq<QrSegment>>)
    requires Readable(g)
  {
    var ver := VersionOf(g);
    var (ecl, msk) := ReadFormatWord(ReadFormat(g));
    match Correct(ver, ecl, WholeBytes(ReadBits(g, ver, msk)))
    case None => None
    case Some(data) => Parse(Unpack(data), ver)
  }

  /** With undamaged format bits and few enough wrong codewords in each block, the segments are read back. */
  lemma CorrectableSymbolReads(g: Grid, segs: seq<QrSegment>, ver: int, ecl: Ecc, msk: nat)
    requires IsVersion(ver) && Fits(segs, ver, ecl) && AllWellFormed(segs) && msk < 8
    requires Square(g, Size(ver)) && ReadFormat(g) == FormatWord(ecl, msk)
    requires CorrectsTo(ver, ecl, WholeBytes(ReadBits(g, ver, msk)), CodewordsOf(segs, ver, ecl))
    ensures Readable(g) && ReadCorrecting(g) == Some(segs)
  {
    hide Fits, CodewordsOf, Correct, CorrectsTo, ReadFormat, FormatWord, ReadFormatWord, ReadBits, Parse, Unpack;
    VersionOfSize(g, ver);
    FormatWordInverts(ecl, msk);
    CorrectFinds(ver, ecl, WholeBytes(ReadBits(g, ver, msk)), CodewordsOf(segs, ver, ecl));
    CodewordsHoldSegments(segs, ver, ecl);
  }

  /** The share of wrong codewords in every block is within the documented tolerance of the level. */
  ghost predicate WithinTolerance(ver: int, ecl: Ecc, received: seq<Byte>, data: seq<Byte>)
    requires IsVersion(ver) && |received| == RawDataModules(ver) / 8 && |data| == DataCodewords(ver, ecl)
  {
    ShapeForTotals(ver, ecl);
    var sh := ShapeFor(ver, ecl);
    forall j :: 0 <= j < sh.blocks ==>
      100 * Distance(Codeword(BlockData(sh, data, j), sh.ecc), ReadBlock(sh, received, j))
      <= TolerancePercent(ecl) * (sh.DataLen(j) + sh.ecc)
  }

  lemma ToleratedBlock(ver: int, ecl: Ecc, j: nat, wrong: nat)
    requires IsVersion(ver)
    requires 100 * wrong <= TolerancePercent(ecl) * (ShapeFor(ver, ecl).DataLen(j) + ShapeFor(ver, ecl).ecc)
    ensures 2 * wrong <= ShapeFor(ver, ecl).ecc
  {
    hide RawDataModules, EccPerBlock, NumBlocks, TolerancePercent;
    ShapeFits(ver, ecl);
    ToleranceFits(ver, ecl, ShapeFor(ver, ecl).DataLen(j) + ShapeFor(ver, ecl).ecc, wrong);
  }

  lemma ToleratedIsCorrectable(ver: int, ecl: Ecc, received: seq<Byte>, data: seq<Byte>)
    requires IsVersion(ver) && |received| == RawDataModules(ver) / 8 && |data| == DataCodewords(ver, ecl)
    requires WithinTolerance(ver, ecl, received, data)
    ensures CorrectsTo(ver, ecl, received, data)
  {
    hide ShapeFor, ReadBlock, BlockData, Codeword, Distance, RawDataModules, DataCodewords, TolerancePercent,
         Shape.DataLen, Shape.DataTotal, Shape.RawTotal;
    ShapeForTotals(ver, ecl);
    var sh := ShapeFor(ver, ecl);
    forall j | 0 <= j < sh.blocks
      ensures 2 * Distance(Codeword(BlockData(sh, data, j), sh.ecc), ReadBlock(sh, received, j)) <= sh.ecc
    {
      ToleratedBlock(ver, ecl, j, Distance(Codeword(BlockData(sh, data, j), sh.ecc), ReadBlock(sh, received, j)));
    }
  }

  /** The documented tolerances, 7, 15, 25 and 30 percent of each block, hold for all versions. */
  lemma ToleratedSymbolReads(g: Grid, segs: seq<QrSegment>, ver: int, ecl: Ecc, msk: nat)
    requires IsVersion(ver) && Fits(segs, ver, ecl) && AllWellFormed(segs) && msk < 8
    requires Square(g, Size(ver)) && ReadFormat(g) == FormatWord(ecl, msk)
    requires WithinTolerance(ver, ecl, WholeBytes(ReadBits(g, ver, msk)), CodewordsOf(segs, ver, ecl))
    ensures Readable(g) && ReadCorrecting(g) == Some(segs)
  {
    hide Fits, CodewordsOf, CorrectsTo, WithinTolerance, ReadFormat, FormatWord, ReadBits, ReadCorrecting, Readable, WholeBytes;
    ToleratedIsCorrectable(ver, ecl, WholeBytes(ReadBits(g, ver, msk)), CodewordsOf(segs, ver, ecl));
    CorrectableSymbolReads(g, segs, ver, ecl, msk);
  }

  //////////////////////////////////////////////////////////////////////////////
  // From altered modules to wrong codewords
  //////////////////////////////////////////////////////////////////////////////

  /** A map with different values for different keys has no more keys than there are values. */
  lemma {:induction false} InjectionSize<A, B>(m: map<A, B>, t: set<B>)
    requires forall a :: a in m ==> m[a] in t
    requires forall a, b :: a in m && b in m && m[a] == m[b] ==> a == b
    ensures |m.Keys| <= |t|
    decreases |m.Keys|
  {
    if |m.Keys| > 0 {
      var a := Pick(m.Keys);
      var rest := m - {a};
      assert rest.Keys == m.Keys - {a};
      InjectionSize(rest, t - {m[a]});
    }
  }

  /** The modules in which two grids differ. */
  ghost function Altered(g: Grid, h: Grid): (s: set<Cell>)
    requires Square(g, |g|) && Square(h, |g|)
  {
    set c | c in Rectangle(0, |g|, 0, |g|) && At(g, c) != At(h, c)
  }

  ghost function DifferentBits(a: seq<bool>, b: seq<bool>): (s: set<int>)
    requires |a| == |b|
  {
    set i | 0 <= i < |a| && a[i] != b[i]
  }

  /** Every wrong bit comes from an altered module of its own. */
  lemma AlteredBits(g: Grid, h: Grid, ver: int, msk: nat)
    requires IsVersion(ver) && Square(g, Size(ver)) && Square(h, Size(ver))
    ensures |DifferentBits(ReadBits(g, ver, msk), ReadBits(h, ver, msk))| <= |Altered(g, h)|
  {
    hide DataPath, RawDataModules, Shaded, IsFunctionModule, Unmasked, Rectangle;
    var a, b, path := ReadBits(g, ver, msk), ReadBits(h, ver, msk), DataPath(ver);
    var m := map i | i in DifferentBits(a, b) :: path[i];
    forall i | i in m
      ensures m[i] in Altered(g, h)
    {
      assert Inside(path[i], Size(ver));
    }
    assert m.Keys == DifferentBits(a, b);
    InjectionSize(m, Altered(g, h));
  }

  lemma SameByte(a: seq<bool>, b: seq<bool>, q: nat)
    requires |a| == |b| && q < |a| / 8
    requires forall i :: 8 * q <= i < 8 * q + 8 ==> a[i] == b[i]
    ensures WholeBytes(a)[q] == WholeBytes(b)[q]
  {
    hide Pack, ValueOf;
    var n := |a| / 8 * 8;
    assert a[..n][8 * q..8 * q + 8] == b[..n][8 * q..8 * q + 8];
  }

  lemma WrongByteHasWrongBit(a: seq<bool>, b: seq<bool>, q: nat) returns (i: int)
    requires |a| == |b| && q < |a| / 8 && WholeBytes(a)[q] != WholeBytes(b)[q]
    ensures i in DifferentBits(a, b) && i / 8 == q
  {
    hide WholeBytes;
    if !exists k :: 8 * q <= k < 8 * q + 8 && a[k] != b[k] {
      SameByte(a, b, q);
    }
    i :| 8 * q <= i < 8 * q + 8 && a[i] != b[i];
  }

  ghost predicate WrongBitOf(a: seq<bool>, b: seq<bool>, q: int, i: int)
    requires |a| == |b|
  {
    i in DifferentBits(a, b) && i / 8 == q
  }

  /** Every wrong byte has a wrong bit of its own. */
  lemma WrongBytes(a: seq<bool>, b: seq<bool>)
    requires |a| == |b|
    ensures Distance(WholeBytes(a), WholeBytes(b)) <= |DifferentBits(a, b)|
  {
    hide WholeBytes, DifferentBits;
    var x, y := WholeBytes(a), WholeBytes(b);
    forall q | q in DifferentAt(x, y)
      ensures exists i :: WrongBitOf(a, b, q, i)
    {
      var i := WrongByteHasWrongBit(a, b, q);
      assert WrongBitOf(a, b, q, i);
    }
    var m := map q | q in DifferentAt(x, y) :: var i :| WrongBitOf(a, b, q, i); i;
    assert m.Keys == DifferentAt(x, y);
    InjectionSize(m, DifferentBits(a, b));
  }

  /** The wrong codewords of a block are wrong codewords of the symbol. */
  lemma WrongInBlock(sh: Shape, x: seq<Byte>, y: seq<Byte>, j: nat)
    requires sh.Valid() && j < sh.blocks && |x| == |y| == sh.RawTotal()
    ensures Distance(ReadBlock(sh, x, j), ReadBlock(sh, y, j)) <= Distance(x, y)
  {
    hide Position, Shape.RawTotal, Shape.DataLen;
    var b, c := ReadBlock(sh, x, j), ReadBlock(sh, y, j);
    var m := map p | p in DifferentAt(b, c) :: Position(sh, j, p);
    forall p | p in m
      ensures m[p] in DifferentAt(x, y)
    {
      PositionBound(sh, j, p);
    }
    forall p, q | p in m && q in m && m[p] == m[q]
      ensures p == q
    {
      PositionInjective(sh, j, p, j, q);
    }
    assert m.Keys == DifferentAt(b, c);
    InjectionSize(m, DifferentAt(x, y));
  }

  //////////////////////////////////////////////////////////////////////////////
  // Altered modules
  //////////////////////////////////////////////////////////////////////////////

  /** No block has more wrong codewords than modules were altered in the whole symbol. */
  lemma FewAltered(g: Grid, ver: int, ecl: Ecc, data: seq<Byte>, msk: nat)
    requires IsVersion(ver) && |data| == DataCodewords(ver, ecl) && Square(g, Size(ver))
    requires 2 * |Altered(g, FinishedSymbol(ver, ecl, data, msk))| <= EccPerBlock(ver, ecl)
    ensures CorrectsTo(ver, ecl, WholeBytes(ReadBits(g, ver, msk)), data)
  {
    hide FinishedSymbol, ReadBits, WholeBytes, Interleave, ReadBlock, BlockData, Codeword, Distance, DifferentBits,
         Altered, RawDataModules, DataCodewords, EccPerBlock, NumBlocks;
    var h, sh := FinishedSymbol(ver, ecl, data, msk), ShapeFor(ver, ecl);
    var a, b := ReadBits(g, ver, msk), ReadBits(h, ver, msk);
    ShapeForTotals(ver, ecl);
    AlteredBits(g, h, ver, msk);
    WrongBytes(a, b);
    ReadBitsOfSymbol(ver, ecl, data, msk);
    WholeBytesOf(b, AllCodewords(ver, ecl, data));
    forall j | 0 <= j < sh.blocks
      ensures 2 * Distance(Codeword(BlockData(sh, data, j), sh.ecc), ReadBlock(sh, WholeBytes(a), j)) <= sh.ecc
    {
      WrongInBlock(sh, WholeBytes(a), WholeBytes(b), j);
      ReadBlockInverts(sh, data, j);
      DistanceSymmetric(ReadBlock(sh, WholeBytes(a), j), ReadBlock(sh, WholeBytes(b), j));
    }
  }

  /**
  However the data is chosen, a symbol in which at most half as many modules have changed colour as
  each block has error correction codewords, and whose format bits are undamaged, is read back.
  */
  lemma AlteredSymbolReads(g: Grid, segs: seq<QrSegment>, ver: int, ecl: Ecc, msk: nat)
    requires IsVersion(ver) && Fits(segs, ver, ecl) && AllWellFormed(segs) && msk < 8
    requires Square(g, Size(ver)) && ReadFormat(g) == FormatWord(ecl, msk)
    requires 2 * |Altered(g, FinishedSymbol(ver, ecl, CodewordsOf(segs, ver, ecl), msk))| <= EccPerBlock(ver, ecl)
    ensures Readable(g) && ReadCorrecting(g) == Some(segs)
  {
    hide Fits, CodewordsOf, FinishedSymbol, CorrectsTo, ReadFormat, FormatWord, ReadBits, ReadCorrecting, Readable,
         Altered, WholeBytes, DataCodewords, EccPerBlock;
    FewAltered(g, ver, ecl, CodewordsOf(segs, ver, ecl), msk);
    CorrectableSymbolReads(g, segs, ver, ecl, msk);
  }

  lemma NothingAltered(g: Grid)
    requires Square(g, |g|)
    ensures Altered(g, g) == {}
  {
  }

  /** On an undamaged symbol the correcting reader finds the segments too. */
  lemma UndamagedSymbolReads(segs: seq<QrSegment>, ver: int, ecl: Ecc, msk: nat)
    requires IsVersion(ver) && Fits(segs, ver, ecl) && AllWellFormed(segs) && msk < 8
    ensures Readable(FinishedSymbol(ver, ecl, CodewordsOf(segs, ver, ecl), msk))
    ensures ReadCorrecting(FinishedSymbol(ver, ecl, CodewordsOf(segs, ver, ecl), msk)) == Some(segs)
  {
    hide Fits, CodewordsOf, ReadFormat, FormatWord, ReadCorrecting, Readable, Altered, EccPerBlock, Symbol, BaseGrid,
         FunctionMap, DataCodewords;
    var data := CodewordsOf(segs, ver, ecl);
    NothingAltered(FinishedSymbol(ver, ecl, data, msk));
    ReadFormatOfSymbol(BaseGrid(ver, ecl, data), FunctionMap(ver), ecl, msk);
    TableFacts(ver, ecl);
    AlteredSymbolReads(FinishedSymbol(ver, ecl, data, msk), segs, ver, ecl, msk);
  }
}
