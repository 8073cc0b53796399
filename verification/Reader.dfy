/**
A reader of finished symbols.  It sees nothing but the modules: the version follows from the size,
level and mask from the format bits; it removes the mask, follows the zigzag path, de-interleaves
the blocks and drops the error correction codewords.
*/
module Reader {
  import opened Bits
  import opened BitStrings
  import opened Grids
  import opened Sets
  import opened Zigzag
  import opened Placement
  import opened Tables
  import opened SymbolGeometry
  import opened Patterns
  import opened CheckBits
  import opened InfoPatterns
  import opened FunctionPatterns
  import opened ReedSolomon
  import opened MinimumDistance
  import opened Interleaving
  import opened Masking
  import opened MaskPictures
  import opened QrCodes

  datatype Contents = Contents(version: int, ecl: Ecc, mask: nat, codewords: seq<Byte>)

  ghost predicate Readable(g: Grid)
  {
    Square(g, |g|) && |g| >= 21 && exists ver :: IsVersion(ver) && Square(g, Size(ver))
  }

  function VersionOf(g: Grid): (ver: int)
  {
    (|g| - 17) / 4
  }

  lemma VersionOfSize(g: Grid, ver: int)
    requires IsVersion(ver) && Square(g, Size(ver))
    ensures VersionOf(g) == ver
  {
  }

  /** The modules with the picture of a mask pattern taken away from those that are not function modules. */
  ghost function Unmasked(g: Grid, ver: int, msk: nat): (r: Grid)
    requires IsVersion(ver) && Square(g, Size(ver))
    ensures Square(r, Size(ver))
    ensures forall c :: Inside(c, Size(ver)) ==> At(r, c) == (At(g, c) != (Shaded(msk, c.x, c.y) && !IsFunctionModule(ver, c)))
  {
    seq(Size(ver), y requires 0 <= y < Size(ver) =>
      seq(Size(ver), x requires 0 <= x < Size(ver) => g[y][x] != (Shaded(msk, x, y) && !IsFunctionModule(ver, Cell(x, y)))))
  }

  /** Taking away the picture is applying the mask once more. */
  lemma UnmaskedIsMasked(g: Grid, ver: int, msk: nat)
    requires IsVersion(ver) && Square(g, Size(ver))
    ensures Unmasked(g, ver, msk) == Masked(g, FunctionMap(ver), msk)
  {
    hide Unmasked, Masked, FunctionMap, Shaded, Inverts, IsFunctionModule;
    forall c | Inside(c, Size(ver))
      ensures At(Unmasked(g, ver, msk), c) == At(Masked(g, FunctionMap(ver), msk), c)
    {
      ShadedIsInverts(msk, c.x, c.y);
    }
    SameGrid(Unmasked(g, ver, msk), Masked(g, FunctionMap(ver), msk), Size(ver));
  }

  /** The bits of the free modules after the mask has been removed, in placement order. */
  ghost function ReadBits(g: Grid, ver: int, msk: nat): (bits: seq<bool>)
    requires IsVersion(ver) && Square(g, Size(ver))
    ensures |bits| == RawDataModules(ver)
  {
    ReadCells(Unmasked(g, ver, msk), DataPath(ver))
  }

  /** The whole bytes of a bit string; up to seven remainder bits are ignored. */
  function WholeBytes(bits: seq<bool>): (bytes: seq<Byte>)
    ensures |bytes| == |bits| / 8
  {
    Pack(bits[..|bits| / 8 * 8])
  }

  /** The data codewords among all codewords of a symbol. */
  ghost function DataOf(ver: int, ecl: Ecc, codewords: seq<Byte>): (data: seq<Byte>)
    requires IsVersion(ver) && |codewords| == RawDataModules(ver) / 8
  {
    ShapeForTotals(ver, ecl);
    ReadData(ShapeFor(ver, ecl), codewords, ShapeFor(ver, ecl).blocks)
  }

  ghost function Read(g: Grid): (r: Contents)
    requires Readable(g)
  {
    var ver := VersionOf(g);
    var (ecl, msk) := ReadFormatWord(ReadFormat(g));
    Contents(ver, ecl, msk, DataOf(ver, ecl, WholeBytes(ReadBits(g, ver, msk))))
  }

  //////////////////////////////////////////////////////////////////////////////
  // The reader inverts the encoder
  //////////////////////////////////////////////////////////////////////////////

  lemma ReadFormatOfSymbol(base: Grid, f: Grid, ecl: Ecc, msk: nat)
    requires Square(base, |base|) && Square(f, |base|) && |base| >= 21 && msk < 8
    ensures ReadFormat(Symbol(base, f, ecl, msk)) == FormatWord(ecl, msk)
  {
    hide Masked, Paint, FormatCell, FormatIndex, ReadFormat, FormatWord, GetBit;
    var g, word := Symbol(base, f, ecl, msk), FormatWord(ecl, msk);
    FormatWordBound(ecl, msk);
    forall k | 0 <= k < 15
      ensures Inside(FormatCell(|g|, k), |g|) && At(g, FormatCell(|g|, k)) == GetBit(word, k)
    {
      FormatIndexInverts(|g|, k);
    }
    ReadFormatInverts(g, word);
  }

  /** The format information lies outside the data path. */
  lemma FormatOffPath(g: Grid, ver: int, ecl: Ecc, msk: nat)
    requires IsVersion(ver) && Square(g, Size(ver))
    ensures ReadCells(WithFormat(g, ecl, msk), DataPath(ver)) == ReadCells(g, DataPath(ver))
  {
    hide Paint, FormatRegion, FormatColour, FormatWord, FunctionMap, Free, Scan;
    var path, f := DataPath(ver), FunctionMap(ver);
    FormatIsMarked(ver);
    SizeFacts(ver);
    ScanInside(Size(ver));
    forall i | 0 <= i < |path|
      ensures At(WithFormat(g, ecl, msk), path[i]) == At(g, path[i])
    {
      assert path[i] in path;
      FreeMember(f, Scan(Size(ver), Size(ver) - 1), path[i]);
    }
  }

  lemma ReadBitsOfSymbol(ver: int, ecl: Ecc, data: seq<Byte>, msk: nat)
    requires IsVersion(ver) && |data| == DataCodewords(ver, ecl)
    ensures ReadBits(FinishedSymbol(ver, ecl, data, msk), ver, msk)[..RawDataModules(ver) / 8 * 8]
            == Unpack(AllCodewords(ver, ecl, data))
  {
    hide Masked, Unmasked, WithFormat, FunctionMap, DataPath, PatternColours, AllCodewords, RawDataModules, PlaceBits, Unpack, ReadCells, MarksFormat, DataCodewords;
    var base, f, path := BaseGrid(ver, ecl, data), FunctionMap(ver), DataPath(ver);
    var bits := Unpack(AllCodewords(ver, ecl, data));
    FormatIsMarked(ver);
    UnmaskedIsMasked(FinishedSymbol(ver, ecl, data, msk), ver, msk);
    TrialSymbol(base, f, ecl, 0, msk);
    FormatOffPath(base, ver, ecl, msk);
    ReadPlaced(PatternColours(Blank(Size(ver)), ver, ecl), path, bits);
    UnpackLength(AllCodewords(ver, ecl, data));
  }

  lemma UnpackLength(bytes: seq<Byte>)
    ensures |Unpack(bytes)| == 8 * |bytes|
  {
  }

  lemma WholeBytesOf(bits: seq<bool>, bytes: seq<Byte>)
    requires bits[..|bits| / 8 * 8] == Unpack(bytes)
    ensures WholeBytes(bits) == bytes
  {
    PackUnpack(bytes);
  }

  lemma DataOfInterleaved(ver: int, ecl: Ecc, data: seq<Byte>)
    requires IsVersion(ver) && |data| == DataCodewords(ver, ecl)
    ensures DataOf(ver, ecl, AllCodewords(ver, ecl, data)) == data
  {
    hide Interleave, ReadData, ShapeFor, RawDataModules, EccPerBlock, NumBlocks;
    ShapeForTotals(ver, ecl);
    ReadDataInverts(ShapeFor(ver, ecl), data);
  }

  /** Reading any finished symbol gives back its version, level, mask and data codewords. */
  lemma ReadInverts(ver: int, ecl: Ecc, data: seq<Byte>, msk: nat)
    requires IsVersion(ver) && |data| == DataCodewords(ver, ecl) && msk < 8
    ensures Readable(FinishedSymbol(ver, ecl, data, msk))
    ensures Read(FinishedSymbol(ver, ecl, data, msk)) == Contents(ver, ecl, msk, data)
  {
    hide BaseGrid, FunctionMap, Symbol, AllCodewords, RawDataModules, DataOf, ReadFormat, ReadFormatWord, FormatWord,
      ReadBits, WholeBytes, Unpack, DataCodewords;
    var g := FinishedSymbol(ver, ecl, data, msk);
    SizeFacts(ver);
    VersionOfSize(g, ver);
    ReadFormatOfSymbol(BaseGrid(ver, ecl, data), FunctionMap(ver), ecl, msk);
    FormatWordInverts(ecl, msk);
    ReadBitsOfSymbol(ver, ecl, data, msk);
    WholeBytesOf(ReadBits(g, ver, msk), AllCodewords(ver, ecl, data));
    DataOfInterleaved(ver, ecl, data);
  }

  //////////////////////////////////////////////////////////////////////////////
  // Damaged symbols
  //////////////////////////////////////////////////////////////////////////////

  /** Blocks that are equal one by one make up equal data. */
  lemma {:induction false} EqualBlocks(sh: Shape, a: seq<Byte>, b: seq<Byte>, n: nat)
    requires sh.Valid() && |a| == |b| == sh.DataTotal() && n <= sh.blocks
    requires forall j :: 0 <= j < n ==> BlockData(sh, a, j) == BlockData(sh, b, j)
    ensures sh.DataStart(n) <= |a| && a[..sh.DataStart(n)] == b[..sh.DataStart(n)]
  {
    DataStartBounds(sh, n);
    if n != 0 {
      EqualBlocks(sh, a, b, n - 1);
      var lo, hi := sh.DataStart(n - 1), sh.DataStart(n);
      assert BlockData(sh, a, n - 1) == BlockData(sh, b, n - 1);
      assert a[..hi] == a[..lo] + a[lo..hi];
      assert b[..hi] == b[..lo] + b[lo..hi];
    }
  }

  /** In every block at most half as many codewords are wrong as there are error correction codewords. */
  ghost predicate Correctable(ver: int, ecl: Ecc, received: seq<Byte>, data: seq<Byte>)
    requires IsVersion(ver) && |received| == ShapeFor(ver, ecl).RawTotal() && |data| == ShapeFor(ver, ecl).DataTotal()
  {
    var sh := ShapeFor(ver, ecl);
    forall j :: 0 <= j < sh.blocks ==>
      2 * Distance(Codeword(BlockData(sh, data, j), sh.ecc), ReadBlock(sh, received, j)) <= sh.ecc
  }

  /** As long as no block has more errors than that, the data of a symbol is determined, for all versions and levels. */
  lemma DamagedSymbol(ver: int, ecl: Ecc, received: seq<Byte>, a: seq<Byte>, b: seq<Byte>)
    requires IsVersion(ver) && |received| == ShapeFor(ver, ecl).RawTotal()
    requires |a| == |b| == ShapeFor(ver, ecl).DataTotal()
    requires Correctable(ver, ecl, received, a) && Correctable(ver, ecl, received, b)
    ensures a == b
  {
    hide ShapeFor, Codeword, Distance, ReadBlock, BlockData;
    var sh := ShapeFor(ver, ecl);
    ShapeForTotals(ver, ecl);
    forall j | 0 <= j < sh.blocks
      ensures BlockData(sh, a, j) == BlockData(sh, b, j)
    {
      UniqueCorrection(ReadBlock(sh, received, j), BlockData(sh, a, j), BlockData(sh, b, j), sh.ecc);
    }
    EqualBlocks(sh, a, b, sh.blocks);
    DataStartBounds(sh, sh.blocks);
  }
}
