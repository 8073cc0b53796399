/** Drawing the function patterns and marking their modules (section 6.3 of ISO/IEC 18004:2015). */
module Patterns {
  import opened Arithmetic
  import opened Grids
  import opened Placement
  import opened Tables
  import opened SymbolGeometry

  //////////////////////////////////////////////////////////////////////////////
  // Painting
  //////////////////////////////////////////////////////////////////////////////

  /** The grid with a region recoloured; what lies outside the grid is ignored. */
  ghost function Paint(g: Grid, region: iset<Cell>, colour: Cell -> bool): (r: Grid)
    requires Square(g, |g|)
    ensures Square(r, |g|)
    ensures forall c :: Inside(c, |g|) ==> At(r, c) == if c in region then colour(c) else At(g, c)
  {
    seq(|g|, y requires 0 <= y < |g| =>
      seq(|g|, x requires 0 <= x < |g| =>
        if Cell(x, y) in region then colour(Cell(x, y)) else g[y][x]))
  }

  lemma PaintOne(g: Grid, region: iset<Cell>, colour: Cell -> bool, c: Cell)
    requires Square(g, |g|)
    ensures Inside(c, |g|) ==>
              Set(Paint(g, region, colour), c, colour(c)) == Paint(g, region + iset{c}, colour)
    ensures !Inside(c, |g|) ==> Paint(g, region, colour) == Paint(g, region + iset{c}, colour)
  {
    hide Set, Paint;
    var p, q := Paint(g, region, colour), Paint(g, region + iset{c}, colour);
    if Inside(c, |g|) {
      SameGrid(Set(p, c, colour(c)), q, |g|);
    } else {
      SameGrid(p, q, |g|);
    }
  }

  lemma PaintNothing(g: Grid, colour: Cell -> bool)
    requires Square(g, |g|)
    ensures Paint(g, iset{}, colour) == g
  {
    SameGrid(Paint(g, iset{}, colour), g, |g|);
  }

  /** Only the part of a region inside the grid matters. */
  lemma PaintAgree(g: Grid, region: iset<Cell>, region': iset<Cell>, colour: Cell -> bool)
    requires Square(g, |g|)
    requires forall c :: Inside(c, |g|) ==> (c in region <==> c in region')
    ensures Paint(g, region, colour) == Paint(g, region', colour)
  {
    hide Paint;
    SameGrid(Paint(g, region, colour), Paint(g, region', colour), |g|);
  }

  /** Painting a second region in colours that the first colouring agrees with. */
  lemma PaintMore(g: Grid, region: iset<Cell>, colour: Cell -> bool, more: iset<Cell>, colour': Cell -> bool)
    requires Square(g, |g|)
    requires forall c :: c in more && Inside(c, |g|) ==> colour(c) == colour'(c)
    ensures Paint(Paint(g, region, colour), more, colour') == Paint(g, region + more, colour)
  {
    hide Paint;
    SameGrid(Paint(Paint(g, region, colour), more, colour'), Paint(g, region + more, colour), |g|);
  }

  ghost function Black(): (colour: Cell -> bool)
  {
    c => true
  }

  /** Sets the colour of a module and marks it as a function module. */
  method SetFunctionModule(modules: array2<bool>, isFunction: array2<bool>, c: Cell, isBlack: bool)
    requires SameSquare(modules, isFunction) && Inside(c, modules.Length0)
    modifies modules, isFunction
    ensures Snapshot(modules) == Set(old(Snapshot(modules)), c, isBlack)
    ensures Snapshot(isFunction) == Set(old(Snapshot(isFunction)), c, true)
  {
    WriteModule(modules, c, isBlack);
    WriteModule(isFunction, c, true);
  }

  /** Both grids after a pattern has been drawn: the modules coloured, and marked as function modules. */
  ghost predicate Drawn(g: Grid, f: Grid, g': Grid, f': Grid, region: iset<Cell>, colour: Cell -> bool)
    requires Square(g, |g|) && Square(f, |f|)
  {
    g' == Paint(g, region, colour) && f' == Paint(f, region, Black())
  }

  lemma DrawnNothing(g: Grid, f: Grid, colour: Cell -> bool)
    requires Square(g, |g|) && Square(f, |f|)
    ensures Drawn(g, f, g, f, iset{}, colour)
  {
    PaintNothing(g, colour);
    PaintNothing(f, Black());
  }

  /** Draws one more module of a pattern. */
  method DrawOne(modules: array2<bool>, isFunction: array2<bool>, c: Cell, isBlack: bool,
                 ghost g: Grid, ghost f: Grid, ghost region: iset<Cell>, ghost colour: Cell -> bool)
    requires SameSquare(modules, isFunction) && Square(g, modules.Length0) && Square(f, modules.Length0)
    requires Inside(c, modules.Length0) && isBlack == colour(c)
    requires Drawn(g, f, Snapshot(modules), Snapshot(isFunction), region, colour)
    modifies modules, isFunction
    ensures Drawn(g, f, Snapshot(modules), Snapshot(isFunction), region + iset{c}, colour)
  {
    hide Set, Paint;
    PaintOne(g, region, colour, c);
    PaintOne(f, region, Black(), c);
    SetFunctionModule(modules, isFunction, c, isBlack);
  }

  /** Draws one more module of a pattern, unless it lies outside the grid. */
  method DrawClipped(modules: array2<bool>, isFunction: array2<bool>, c: Cell, isBlack: bool,
                     ghost g: Grid, ghost f: Grid, ghost region: iset<Cell>, ghost colour: Cell -> bool)
    requires SameSquare(modules, isFunction) && Square(g, modules.Length0) && Square(f, modules.Length0)
    requires isBlack == colour(c)
    requires Drawn(g, f, Snapshot(modules), Snapshot(isFunction), region, colour)
    modifies modules, isFunction
    ensures Drawn(g, f, Snapshot(modules), Snapshot(isFunction), region + iset{c}, colour)
  {
    hide Paint;
    if 0 <= c.x < modules.Length0 && 0 <= c.y < modules.Length0 {
      DrawOne(modules, isFunction, c, isBlack, g, f, region, colour);
    } else {
      PaintOne(g, region, colour, c);
      PaintOne(f, region, Black(), c);
    }
  }

  //////////////////////////////////////////////////////////////////////////////
  // Square patterns
  //////////////////////////////////////////////////////////////////////////////

  /** The Chebyshev distance of a cell from (x, y). */
  function Dist(c: Cell, x: int, y: int): (d: nat)
  {
    if Abs(c.x - x) > Abs(c.y - y) then Abs(c.x - x) else Abs(c.y - y)
  }

  ghost function Block(x: int, y: int, radius: int): (region: iset<Cell>)
  {
    iset c: Cell | Dist(c, x, y) <= radius
  }

  /** The part of a block drawn by a row-by-row loop over offsets that has reached (dx, dy). */
  ghost function BlockUpTo(x: int, y: int, radius: int, dx: int, dy: int): (region: iset<Cell>)
  {
    iset c: Cell | Dist(c, x, y) <= radius && (c.y - y < dy || (c.y - y == dy && c.x - x < dx))
  }

  lemma BlockStart(x: int, y: int, radius: int)
    ensures BlockUpTo(x, y, radius, -radius, -radius) == iset{}
  {
  }

  lemma BlockNext(x: int, y: int, radius: int, dx: int, dy: int)
    requires Abs(dx) <= radius && Abs(dy) <= radius
    ensures BlockUpTo(x, y, radius, dx + 1, dy) == BlockUpTo(x, y, radius, dx, dy) + iset{Cell(x + dx, y + dy)}
  {
  }

  lemma BlockRow(x: int, y: int, radius: int, dy: int)
    ensures BlockUpTo(x, y, radius, radius + 1, dy) == BlockUpTo(x, y, radius, -radius, dy + 1)
  {
  }

  lemma BlockEnd(x: int, y: int, radius: int)
    ensures BlockUpTo(x, y, radius, -radius, radius + 1) == Block(x, y, radius)
  {
  }

  ghost function FinderColour(x: int, y: int): (colour: Cell -> bool)
  {
    c => Dist(c, x, y) != 2 && Dist(c, x, y) != 4
  }

  /** Draws a finder pattern with its separator, as far as it lies inside the grid. */
  method DrawFinderPattern(modules: array2<bool>, isFunction: array2<bool>, x: int, y: int)
    requires SameSquare(modules, isFunction)
    modifies modules, isFunction
    ensures Drawn(old(Snapshot(modules)), old(Snapshot(isFunction)), Snapshot(modules), Snapshot(isFunction),
                  Block(x, y, 4), FinderColour(x, y))
  {
    hide Paint, BlockUpTo, Block, Drawn;
    ghost var g, f, colour := Snapshot(modules), Snapshot(isFunction), FinderColour(x, y);
    BlockStart(x, y, 4);
    DrawnNothing(g, f, colour);
    for dy := -4 to 5
      invariant Drawn(g, f, Snapshot(modules), Snapshot(isFunction), BlockUpTo(x, y, 4, -4, dy), colour)
    {
      for dx := -4 to 5
        invariant Drawn(g, f, Snapshot(modules), Snapshot(isFunction), BlockUpTo(x, y, 4, dx, dy), colour)
      {
        var dist := if Abs(dx) > Abs(dy) then Abs(dx) else Abs(dy);
        BlockNext(x, y, 4, dx, dy);
        DrawClipped(modules, isFunction, Cell(x + dx, y + dy), dist != 2 && dist != 4, g, f,
                    BlockUpTo(x, y, 4, dx, dy), colour);
      }
      BlockRow(x, y, 4, dy);
    }
    BlockEnd(x, y, 4);
  }

  ghost function AlignmentColour(x: int, y: int): (colour: Cell -> bool)
  {
    c => Dist(c, x, y) != 1
  }

  /** Draws an alignment pattern, which must lie inside the grid. */
  method DrawAlignmentPattern(modules: array2<bool>, isFunction: array2<bool>, x: int, y: int)
    requires SameSquare(modules, isFunction)
    requires 2 <= x < modules.Length0 - 2 && 2 <= y < modules.Length0 - 2
    modifies modules, isFunction
    ensures Drawn(old(Snapshot(modules)), old(Snapshot(isFunction)), Snapshot(modules), Snapshot(isFunction),
                  Block(x, y, 2), AlignmentColour(x, y))
  {
    hide Paint, BlockUpTo, Block, Drawn;
    ghost var g, f, colour := Snapshot(modules), Snapshot(isFunction), AlignmentColour(x, y);
    BlockStart(x, y, 2);
    DrawnNothing(g, f, colour);
    for dy := -2 to 3
      invariant Drawn(g, f, Snapshot(modules), Snapshot(isFunction), BlockUpTo(x, y, 2, -2, dy), colour)
    {
      for dx := -2 to 3
        invariant Drawn(g, f, Snapshot(modules), Snapshot(isFunction), BlockUpTo(x, y, 2, dx, dy), colour)
      {
        var dist := if Abs(dx) > Abs(dy) then Abs(dx) else Abs(dy);
        BlockNext(x, y, 2, dx, dy);
        DrawOne(modules, isFunction, Cell(x + dx, y + dy), dist != 1, g, f, BlockUpTo(x, y, 2, dx, dy), colour);
      }
      BlockRow(x, y, 2, dy);
    }
    BlockEnd(x, y, 2);
  }

  //////////////////////////////////////////////////////////////////////////////
  // Timing patterns
  //////////////////////////////////////////////////////////////////////////////

  ghost function TimingRegion(): (region: iset<Cell>)
  {
    iset c: Cell | OnTiming(c)
  }

  ghost function TimingColour(): (colour: Cell -> bool)
  {
    (c: Cell) => if c.x == 6 then c.y % 2 == 0 else c.x % 2 == 0
  }

  ghost function TimingUpTo(i: int): (region: iset<Cell>)
  {
    iset c: Cell | (c.x == 6 && 0 <= c.y < i) || (c.y == 6 && 0 <= c.x < i)
  }

  method DrawTimingPatterns(modules: array2<bool>, isFunction: array2<bool>)
    requires SameSquare(modules, isFunction) && modules.Length0 >= 7
    modifies modules, isFunction
    ensures Drawn(old(Snapshot(modules)), old(Snapshot(isFunction)), Snapshot(modules), Snapshot(isFunction),
                  TimingRegion(), TimingColour())
  {
    hide Paint, Drawn, TimingUpTo;
    var size := modules.Length0;
    ghost var g, f, colour := Snapshot(modules), Snapshot(isFunction), TimingColour();
    DrawnNothing(g, f, colour);
    TimingSteps(0);
    for i := 0 to size
      invariant Drawn(g, f, Snapshot(modules), Snapshot(isFunction), TimingUpTo(i), colour)
    {
      ghost var region := TimingUpTo(i);
      DrawOne(modules, isFunction, Cell(6, i), i % 2 == 0, g, f, region, colour);
      DrawOne(modules, isFunction, Cell(i, 6), i % 2 == 0, g, f, region + iset{Cell(6, i)}, colour);
      TimingSteps(i);
    }
    TimingEnd(g, f, Snapshot(modules), Snapshot(isFunction));
  }

  lemma TimingSteps(i: nat)
    ensures TimingUpTo(0) == iset{}
    ensures TimingUpTo(i + 1) == TimingUpTo(i) + iset{Cell(6, i)} + iset{Cell(i, 6)}
  {
  }

  lemma TimingEnd(g: Grid, f: Grid, g': Grid, f': Grid)
    requires Square(g, |g|) && Square(f, |f|) && |f| == |g|
    requires Drawn(g, f, g', f', TimingUpTo(|g|), TimingColour())
    ensures Drawn(g, f, g', f', TimingRegion(), TimingColour())
  {
    hide Paint;
    PaintAgree(g, TimingUpTo(|g|), TimingRegion(), TimingColour());
    PaintAgree(f, TimingUpTo(|g|), TimingRegion(), Black());
  }

  //////////////////////////////////////////////////////////////////////////////
  // Alignment patterns
  //////////////////////////////////////////////////////////////////////////////

  /** The centre coordinates of the alignment patterns, in ascending order. */
  method GetAlignmentPatternPositions(ver: int) returns (result: seq<int>)
    requires IsVersion(ver)
    ensures |result| == NumAlign(ver)
    ensures forall i :: 0 <= i < |result| ==> result[i] == AlignPosition(ver, i)
    ensures forall i :: 0 <= i < |result| ==> 6 <= result[i] <= Size(ver) - 7
    ensures forall i, j :: 0 <= i < j < |result| ==> result[i] + 5 <= result[j]
  {
    hide AlignPosition;
    if ver == 1 {
      return [];
    }
    var numAlign := ver / 7 + 2;
    var step := if ver == 32 then 26 else (ver * 4 + numAlign * 2 + 1) / (numAlign * 2 - 2) * 2;
    assert step == AlignStep(ver) && numAlign == NumAlign(ver);
    result := PositionsFromLast(ver, numAlign, step);
    result := [6] + result;
    FirstAlign(ver);
    forall i | 0 <= i < |result|
      ensures 6 <= result[i] <= Size(ver) - 7
    {
      AlignBounds(ver, i);
    }
    forall i, j | 0 <= i < j < |result|
      ensures result[i] + 5 <= result[j]
    {
      AlignApart(ver, i, j);
    }
  }

  method PositionsFromLast(ver: int, numAlign: int, step: int) returns (result: seq<int>)
    requires 2 <= ver <= 40 && numAlign == NumAlign(ver) && step == AlignStep(ver)
    ensures |result| == numAlign - 1
    ensures forall k :: 0 <= k < |result| ==> result[k] == AlignPosition(ver, 1 + k)
  {
    hide AlignPosition, AlignStep;
    result := [];
    var pos := Size(ver) - 7;
    LastAlign(ver);
    for i := 0 to numAlign - 1
      invariant |result| == i
      invariant i < numAlign - 1 ==> pos == AlignPosition(ver, numAlign - 1 - i)
      invariant forall k :: 0 <= k < i ==> result[k] == AlignPosition(ver, numAlign - i + k)
    {
      result := [pos] + result;
      if i < numAlign - 2 {
        AlignPositionStep(ver, numAlign - 2 - i);
      }
      pos := pos - step;
    }
  }

  /** The modules of the alignment patterns drawn before the pattern in column i and row j. */
  ghost function AlignedUpTo(ver: int, i: int, j: int): (region: iset<Cell>)
    requires IsVersion(ver)
  {
    iset c: Cell | ver >= 2 && exists i', j' :: HasAlignment(ver, i', j') && Near(ver, c.x, i') && Near(ver, c.y, j')
                                             && (i' < i || (i' == i && j' < j))
  }

  ghost function AlignmentRegion(ver: int): (region: iset<Cell>)
  {
    iset c: Cell | InAlignment(ver, c)
  }

  /** The colour of a module of any alignment pattern, by its distance from the centre of that pattern. */
  ghost function AlignmentsColour(ver: int): (colour: Cell -> bool)
  {
    (c: Cell) => ver >= 2 && exists i, j :: HasAlignment(ver, i, j) && Near(ver, c.x, i) && Near(ver, c.y, j)
                                         && Dist(c, AlignPosition(ver, i), AlignPosition(ver, j)) != 1
  }

  lemma AlignedNext(ver: int, i: nat, j: nat)
    requires 2 <= ver <= 40 && i < NumAlign(ver) && j < NumAlign(ver)
    ensures HasAlignment(ver, i, j) ==>
              AlignedUpTo(ver, i, j + 1) == AlignedUpTo(ver, i, j) + Block(AlignPosition(ver, i), AlignPosition(ver, j), 2)
    ensures !HasAlignment(ver, i, j) ==> AlignedUpTo(ver, i, j + 1) == AlignedUpTo(ver, i, j)
  {
    hide AlignPosition, NumAlign;
    var block := Block(AlignPosition(ver, i), AlignPosition(ver, j), 2);
    forall c
      ensures c in block <==> Near(ver, c.x, i) && Near(ver, c.y, j)
    {
    }
    hide Block, Near;
  }

  lemma AlignmentsColourIs(ver: int, i: nat, j: nat, c: Cell)
    requires 2 <= ver <= 40 && HasAlignment(ver, i, j)
    requires c in Block(AlignPosition(ver, i), AlignPosition(ver, j), 2)
    ensures AlignmentsColour(ver)(c) == AlignmentColour(AlignPosition(ver, i), AlignPosition(ver, j))(c)
  {
    hide AlignPosition, NumAlign;
    forall i', j' | HasAlignment(ver, i', j') && Near(ver, c.x, i') && Near(ver, c.y, j')
      ensures i' == i && j' == j
    {
      NearUnique(ver, c.x, i, i');
      NearUnique(ver, c.y, j, j');
    }
    assert Near(ver, c.x, i) && Near(ver, c.y, j);
  }
}
