/** Where format and version information is drawn, and how a reader finds it. */
module InfoPatterns {
  import opened Bits
  import opened BitStrings
  import opened Grids
  import opened Placement
  import opened Tables
  import opened SymbolGeometry
  import opened Patterns
  import opened CheckBits

  //////////////////////////////////////////////////////////////////////////////
  // Format information
  //////////////////////////////////////////////////////////////////////////////

  /** The k-th module drawn: bits 0 to 14 of the first copy, of the second copy, and the dark module. */
  function FormatCell(size: int, k: int): (c: Cell)
    requires 0 <= k < 31
  {
    if k <= 5 then Cell(8, k)
    else if k == 6 then Cell(8, 7)
    else if k == 7 then Cell(8, 8)
    else if k == 8 then Cell(7, 8)
    else if k < 15 then Cell(14 - k, 8)
    else if k < 23 then Cell(size - 1 - (k - 15), 8)
    else if k < 30 then Cell(8, size - 15 + (k - 15))
    else Cell(8, size - 8)
  }

  /** The inverse of FormatCell; -1 for the modules that hold no format information. */
  function FormatIndex(size: int, c: Cell): (k: int)
    ensures -1 <= k < 31
  {
    if c.x == 8 && 0 <= c.y <= 5 then c.y
    else if c == Cell(8, 7) then 6
    else if c == Cell(8, 8) then 7
    else if c == Cell(7, 8) then 8
    else if c.y == 8 && 0 <= c.x <= 5 then 14 - c.x
    else if c.y == 8 && size - 8 <= c.x < size then 15 + size - 1 - c.x
    else if c.x == 8 && size - 7 <= c.y < size then 30 + c.y - size
    else if c == Cell(8, size - 8) then 30
    else -1
  }

  lemma FormatIndexInverts(size: int, k: int)
    requires size >= 21 && 0 <= k < 31
    ensures FormatIndex(size, FormatCell(size, k)) == k
    ensures Inside(FormatCell(size, k), size)
  {
  }

  lemma FormatCellInverts(size: int, c: Cell)
    requires size >= 21 && FormatIndex(size, c) >= 0
    ensures FormatCell(size, FormatIndex(size, c)) == c
  {
  }

  predicate FormatColourAt(word: nat, k: int)
    requires 0 <= k < 31
  {
    if k < 15 then GetBit(word, k) else if k < 30 then GetBit(word, k - 15) else true
  }

  ghost function FormatUpTo(size: int, k: int): (region: iset<Cell>)
  {
    iset c: Cell | 0 <= FormatIndex(size, c) < k
  }

  ghost function FormatRegion(size: int): (region: iset<Cell>)
  {
    iset c: Cell | 0 <= FormatIndex(size, c)
  }

  ghost function FormatColour(size: int, word: nat): (colour: Cell -> bool)
  {
    (c: Cell) => var k := FormatIndex(size, c); 0 <= k && FormatColourAt(word, k)
  }

  lemma FormatSteps(size: int, k: int)
    requires size >= 21 && 0 <= k < 31
    ensures FormatUpTo(size, 0) == iset{}
    ensures FormatUpTo(size, k + 1) == FormatUpTo(size, k) + iset{FormatCell(size, k)}
    ensures FormatUpTo(size, 31) == FormatRegion(size)
  {
    FormatIndexInverts(size, k);
    forall c | FormatIndex(size, c) == k
      ensures c == FormatCell(size, k)
    {
      FormatCellInverts(size, c);
    }
    hide FormatIndex, FormatCell;
  }

  /** Draws the next format module. */
  method DrawFormatModule(modules: array2<bool>, isFunction: array2<bool>, c: Cell, isBlack: bool, k: nat,
                          ghost word: nat, ghost g: Grid, ghost f: Grid)
    requires SameSquare(modules, isFunction) && modules.Length0 >= 21
    requires Square(g, modules.Length0) && Square(f, modules.Length0)
    requires k < 31 && c == FormatCell(modules.Length0, k) && isBlack == FormatColourAt(word, k)
    requires Drawn(g, f, Snapshot(modules), Snapshot(isFunction), FormatUpTo(modules.Length0, k), FormatColour(modules.Length0, word))
    modifies modules, isFunction
    ensures Drawn(g, f, Snapshot(modules), Snapshot(isFunction), FormatUpTo(modules.Length0, k + 1), FormatColour(modules.Length0, word))
  {
    hide Drawn, FormatUpTo, FormatColourAt, FormatCell, FormatIndex;
    var size := modules.Length0;
    FormatSteps(size, k);
    FormatIndexInverts(size, k);
    DrawOne(modules, isFunction, c, isBlack, g, f, FormatUpTo(size, k), FormatColour(size, word));
  }

  /** Draws both copies of the format bits and the dark module, over whatever was there. */
  method DrawFormatBits(modules: array2<bool>, isFunction: array2<bool>, ecl: Ecc, msk: nat)
    requires SameSquare(modules, isFunction) && modules.Length0 >= 21 && msk < 8
    modifies modules, isFunction
    ensures Drawn(old(Snapshot(modules)), old(Snapshot(isFunction)), Snapshot(modules), Snapshot(isFunction),
                  FormatRegion(modules.Length0), FormatColour(modules.Length0, FormatWord(ecl, msk)))
  {
    hide Drawn, FormatUpTo, FormatRegion, GetBit, FormatColour, FormatWord;
    var bits := ComputeFormatBits(ecl, msk);
    var size := modules.Length0;
    ghost var g, f := Snapshot(modules), Snapshot(isFunction);
    DrawnNothing(g, f, FormatColour(size, bits));
    FormatSteps(size, 0);
    for i := 0 to 6
      invariant Drawn(g, f, Snapshot(modules), Snapshot(isFunction), FormatUpTo(size, i), FormatColour(size, bits))
    {
      DrawFormatModule(modules, isFunction, Cell(8, i), GetBit(bits, i), i, bits, g, f);
    }
    DrawFormatModule(modules, isFunction, Cell(8, 7), GetBit(bits, 6), 6, bits, g, f);
    DrawFormatModule(modules, isFunction, Cell(8, 8), GetBit(bits, 7), 7, bits, g, f);
    DrawFormatModule(modules, isFunction, Cell(7, 8), GetBit(bits, 8), 8, bits, g, f);
    for i := 9 to 15
      invariant Drawn(g, f, Snapshot(modules), Snapshot(isFunction), FormatUpTo(size, i), FormatColour(size, bits))
    {
      DrawFormatModule(modules, isFunction, Cell(14 - i, 8), GetBit(bits, i), i, bits, g, f);
    }
    for i := 0 to 8
      invariant Drawn(g, f, Snapshot(modules), Snapshot(isFunction), FormatUpTo(size, 15 + i), FormatColour(size, bits))
    {
      DrawFormatModule(modules, isFunction, Cell(size - 1 - i, 8), GetBit(bits, i), 15 + i, bits, g, f);
    }
    for i := 8 to 15
      invariant Drawn(g, f, Snapshot(modules), Snapshot(isFunction), FormatUpTo(size, 15 + i), FormatColour(size, bits))
    {
      DrawFormatModule(modules, isFunction, Cell(8, size - 15 + i), GetBit(bits, i), 15 + i, bits, g, f);
    }
    DrawFormatModule(modules, isFunction, Cell(8, size - 8), true, 30, bits, g, f);
  }

  /** The first copy of the format bits, as a reader collects them. */
  function ReadFormat(g: Grid): (word: nat)
    requires Square(g, |g|) && |g| >= 21
  {
    ValueOf(seq(15, i requires 0 <= i < 15 =>
      FormatIndexInverts(|g|, 14 - i);
      At(g, FormatCell(|g|, 14 - i))))
  }

  /** A grid whose format modules show a word reads back as that word. */
  lemma ReadFormatInverts(g: Grid, word: nat)
    requires Square(g, |g|) && |g| >= 21 && word < 32768
    requires forall k :: 0 <= k < 15 ==> Inside(FormatCell(|g|, k), |g|) && At(g, FormatCell(|g|, k)) == GetBit(word, k)
    ensures ReadFormat(g) == word
  {
    hide BitsOf, GetBit, FormatCell, ValueOf;
    FormatConstants();
    WordOfBits(seq(15, i requires 0 <= i < 15 =>
      FormatIndexInverts(|g|, 14 - i);
      At(g, FormatCell(|g|, 14 - i))), word);
  }

  /** Bits that agree with those of a word, most significant first, write that word. */
  lemma WordOfBits(bits: seq<bool>, word: nat)
    requires word < Pow2(|bits|)
    requires forall i :: 0 <= i < |bits| ==> bits[i] == GetBit(word, |bits| - 1 - i)
    ensures ValueOf(bits) == word
  {
    hide BitsOf, GetBit, ValueOf, Pow2;
    forall i | 0 <= i < |bits|
      ensures bits[i] == BitsOf(word, |bits|)[i]
    {
      BitsOfAt(word, |bits|, i);
    }
    assert bits == BitsOf(word, |bits|);
    ValueOfBitsOf(word, |bits|);
  }

  //////////////////////////////////////////////////////////////////////////////
  // Version information
  //////////////////////////////////////////////////////////////////////////////

  /** The bit of the version information that a module holds. */
  function VersionIndex(size: int, c: Cell): (i: int)
  {
    if 0 <= c.y <= 5 && size - 11 <= c.x <= size - 9 then 3 * c.y + c.x - (size - 11)
    else if 0 <= c.x <= 5 && size - 11 <= c.y <= size - 9 then 3 * c.x + c.y - (size - 11)
    else -1
  }

  ghost function VersionUpTo(size: int, i: int): (region: iset<Cell>)
  {
    iset c: Cell | 0 <= VersionIndex(size, c) < i
  }

  ghost function VersionRegion(size: int): (region: iset<Cell>)
  {
    iset c: Cell | 0 <= VersionIndex(size, c)
  }

  ghost function VersionColour(size: int, word: nat): (colour: Cell -> bool)
  {
    (c: Cell) => var i := VersionIndex(size, c); 0 <= i && GetBit(word, i)
  }

  lemma VersionSteps(size: int, i: int)
    requires size >= 45 && 0 <= i < 18
    ensures VersionUpTo(size, 0) == iset{}
    ensures var a, b := size - 11 + i % 3, i / 3;
            VersionIndex(size, Cell(a, b)) == i == VersionIndex(size, Cell(b, a))
            && VersionUpTo(size, i + 1) == VersionUpTo(size, i) + iset{Cell(a, b)} + iset{Cell(b, a)}
    ensures VersionUpTo(size, 18) == VersionRegion(size)
  {
  }

  /** Draws both copies of the version bits, which versions 1 to 6 do not have. */
  method DrawVersion(modules: array2<bool>, isFunction: array2<bool>, ver: int)
    requires SameSquare(modules, isFunction) && IsVersion(ver) && modules.Length0 == Size(ver)
    modifies modules, isFunction
    ensures ver < 7 ==> Snapshot(modules) == old(Snapshot(modules)) && Snapshot(isFunction) == old(Snapshot(isFunction))
    ensures ver >= 7 ==>
              Drawn(old(Snapshot(modules)), old(Snapshot(isFunction)), Snapshot(modules), Snapshot(isFunction),
                    VersionRegion(Size(ver)), VersionColour(Size(ver), VersionWord(ver)))
  {
    hide Drawn, VersionUpTo, VersionRegion, GetBit, VersionWord, VersionIndex;
    if ver < 7 {
      return;
    }
    var bits := ComputeVersionBits(ver);
    var size := modules.Length0;
    ghost var g, f, colour := Snapshot(modules), Snapshot(isFunction), VersionColour(size, bits);
    DrawnNothing(g, f, colour);
    VersionSteps(size, 0);
    for i := 0 to 18
      invariant Drawn(g, f, Snapshot(modules), Snapshot(isFunction), VersionUpTo(size, i), colour)
    {
      VersionSteps(size, i);
      var bit := GetBit(bits, i);
      var a := size - 11 + i % 3;
      var b := i / 3;
      DrawOne(modules, isFunction, Cell(a, b), bit, g, f, VersionUpTo(size, i), colour);
      DrawOne(modules, isFunction, Cell(b, a), bit, g, f, VersionUpTo(size, i) + iset{Cell(a, b)}, colour);
    }
  }
}
