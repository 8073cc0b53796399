/** Masking the data modules and choosing the mask (section 7.8 of ISO/IEC 18004:2015). */
module Masking {
  import opened Arithmetic
  import opened Results
  import opened Grids
  import opened Placement
  import opened Tables
  import opened Patterns
  import opened CheckBits
  import opened InfoPatterns
  import opened Penalty

  /** Whether mask pattern msk inverts the module in column x and row y, by parities and remainders of the product. */
  predicate Inverts(msk: int, x: nat, y: nat)
  {
    if msk == 0 then x % 2 == y % 2
    else if msk == 1 then y % 2 == 0
    else if msk == 2 then x % 3 == 0
    else if msk == 3 then (x + y) % 3 == 0
    else if msk == 4 then x / 3 % 2 == y / 2 % 2
    else if msk == 5 then x * y % 6 == 0
    else if msk == 6 then x * y % 6 < 3
    else (x % 2 == y % 2) == (x * y % 3 != 1)
  }

  /** The condition as it is computed for each module. */
  method InvertsModule(msk: int, x: nat, y: nat) returns (invert: bool)
    requires 0 <= msk <= 7
    ensures invert == Inverts(msk, x, y)
  {
    match msk {
      case 0 => invert := (x + y) % 2 == 0;
      case 1 => invert := y % 2 == 0;
      case 2 => invert := x % 3 == 0;
      case 3 => invert := (x + y) % 3 == 0;
      case 4 => invert := (x / 3 + y / 2) % 2 == 0; SumParity(x / 3, y / 2);
      case 5 => invert := x * y % 2 + x * y % 3 == 0; ByRemainders(x * y);
      case 6 => invert := (x * y % 2 + x * y % 3) % 2 == 0; ByRemainders(x * y);
      case _ => invert := ((x + y) % 2 + x * y % 3) % 2 == 0; OddRemainder((x + y) % 2, x * y % 3);
    }
    SumParity(x, y);
  }

  lemma SumParity(a: nat, b: nat)
    ensures (a + b) % 2 == 0 <==> a % 2 == b % 2
  {
  }

  lemma OddRemainder(a: nat, b: nat)
    requires a < 2 && b < 3
    ensures (a + b) % 2 == 0 <==> ((a == 0) == (b != 1))
  {
  }

  lemma Remainder2(q: nat, r: nat)
    ensures (6 * q + r) % 2 == r % 2
  {
    DivideDigit(3 * q + r / 2, 2, r % 2);
  }

  lemma Remainder3(q: nat, r: nat)
    ensures (6 * q + r) % 3 == r % 3
  {
    DivideDigit(2 * q + r / 3, 3, r % 3);
  }

  lemma SmallRemainders(r: nat)
    requires r < 6
    ensures r % 2 + r % 3 == 0 <==> r == 0
    ensures (r % 2 + r % 3) % 2 == 0 <==> r < 3
  {
  }

  lemma ByRemainders(p: nat)
    ensures p % 2 + p % 3 == 0 <==> p % 6 == 0
    ensures (p % 2 + p % 3) % 2 == 0 <==> p % 6 < 3
  {
    Remainder2(p / 6, p % 6);
    Remainder3(p / 6, p % 6);
    SmallRemainders(p % 6);
  }

  ghost function MaskColour(g: Grid, f: Grid, msk: int): (colour: Cell -> bool)
    requires Square(g, |g|) && Square(f, |g|)
  {
    (c: Cell) => Inside(c, |g|) && At(g, c) != (Inverts(msk, c.x, c.y) && !At(f, c))
  }

  ghost function RowsBefore(x: int, y: int): (region: iset<Cell>)
  {
    iset c: Cell | Before(c, x, y)
  }

  /** The grid with mask pattern msk applied to the modules that are not function modules. */
  ghost function Masked(g: Grid, f: Grid, msk: int): (r: Grid)
    requires Square(g, |g|) && Square(f, |g|)
    ensures Square(r, |g|)
    ensures forall c :: Inside(c, |g|) ==> At(r, c) == (At(g, c) != (Inverts(msk, c.x, c.y) && !At(f, c)))
  {
    Paint(g, RowsBefore(0, |g|), MaskColour(g, f, msk))
  }

  /** Applying the same mask a second time undoes it. */
  lemma MaskedTwice(g: Grid, f: Grid, msk: int)
    requires Square(g, |g|) && Square(f, |g|)
    ensures Masked(Masked(g, f, msk), f, msk) == g
  {
    hide Masked, Inverts;
    SameGrid(Masked(Masked(g, f, msk), f, msk), g, |g|);
  }

  lemma RowsSteps(g: Grid, colour: Cell -> bool, x: int, y: int)
    requires Square(g, |g|)
    ensures Paint(g, RowsBefore(0, 0), colour) == g
    ensures Paint(g, RowsBefore(|g|, y), colour) == Paint(g, RowsBefore(0, y + 1), colour)
    ensures RowsBefore(x + 1, y) == RowsBefore(x, y) + iset{Cell(x, y)}
    ensures Cell(x, y) !in RowsBefore(x, y)
  {
    hide Paint;
    PaintNothing(g, colour);
    PaintAgree(g, RowsBefore(0, 0), iset{}, colour);
    PaintAgree(g, RowsBefore(|g|, y), RowsBefore(0, y + 1), colour);
  }

  /** Inverts in place the data modules that the mask pattern selects. */
  method ApplyMask(modules: array2<bool>, isFunction: array2<bool>, msk: int) returns (r: Result<()>)
    requires SameSquare(modules, isFunction)
    modifies modules
    ensures r == if 0 <= msk <= 7 then Ok(()) else Err(DomainError)
    ensures r.Ok? ==> Snapshot(modules) == Masked(old(Snapshot(modules)), Snapshot(isFunction), msk)
    ensures r.Err? ==> Snapshot(modules) == old(Snapshot(modules))
  {
    hide Paint, RowsBefore, Inverts, Set;
    if msk < 0 || msk > 7 {
      return Err(DomainError);
    }
    var sz := modules.Length0;
    ghost var g, f := Snapshot(modules), Snapshot(isFunction);
    ghost var colour := MaskColour(g, f, msk);
    RowsSteps(g, colour, 0, 0);
    for y := 0 to sz
      invariant Snapshot(modules) == Paint(g, RowsBefore(0, y), colour)
    {
      for x := 0 to sz
        invariant Snapshot(modules) == Paint(g, RowsBefore(x, y), colour)
      {
        var c := Cell(x, y);
        RowsSteps(g, colour, x, y);
        PaintOne(g, RowsBefore(x, y), colour, c);
        assert At(Snapshot(modules), c) == modules[y, x];
        assert modules[y, x] == At(g, c) && isFunction[y, x] == At(f, c);
        var invert := InvertsModule(msk, x, y);
        WriteModule(modules, c, modules[y, x] != (invert && !isFunction[y, x]));
      }
      RowsSteps(g, colour, 0, y);
    }
    return Ok(());
  }

  //////////////////////////////////////////////////////////////////////////////
  // Symbols
  //////////////////////////////////////////////////////////////////////////////

  /** The grid with the format information of a level and mask drawn over it. */
  ghost function WithFormat(g: Grid, ecl: Ecc, msk: nat): (r: Grid)
    requires Square(g, |g|)
    ensures Square(r, |g|)
  {
    Paint(g, FormatRegion(|g|), FormatColour(|g|, FormatWord(ecl, msk)))
  }

  /** The symbol that results from forcing a mask. */
  ghost function Symbol(base: Grid, f: Grid, ecl: Ecc, msk: nat): (r: Grid)
    requires Square(base, |base|) && Square(f, |base|)
    ensures Square(r, |base|)
  {
    WithFormat(Masked(base, f, msk), ecl, msk)
  }

  lemma FormatOverFormat(g: Grid, ecl: Ecc, a: nat, b: nat)
    requires Square(g, |g|)
    ensures WithFormat(WithFormat(g, ecl, a), ecl, b) == WithFormat(g, ecl, b)
  {
    hide Paint, FormatRegion, FormatColour, FormatWord;
    SameGrid(WithFormat(WithFormat(g, ecl, a), ecl, b), WithFormat(g, ecl, b), |g|);
  }

  ghost predicate MarksFormat(f: Grid)
    requires Square(f, |f|)
  {
    forall c :: Inside(c, |f|) && c in FormatRegion(|f|) ==> At(f, c)
  }

  /** Masking does not touch the format information. */
  lemma MaskUnderFormat(g: Grid, f: Grid, ecl: Ecc, a: nat, msk: int)
    requires Square(g, |g|) && Square(f, |g|) && MarksFormat(f)
    ensures Masked(WithFormat(g, ecl, a), f, msk) == WithFormat(Masked(g, f, msk), ecl, a)
  {
    hide Paint, Masked, FormatRegion, FormatColour, FormatWord, Inverts;
    SameGrid(Masked(WithFormat(g, ecl, a), f, msk), WithFormat(Masked(g, f, msk), ecl, a), |g|);
  }

  lemma MarksStay(f: Grid)
    requires Square(f, |f|) && MarksFormat(f)
    ensures Paint(f, FormatRegion(|f|), Black()) == f
  {
    hide Paint, FormatRegion;
    SameGrid(Paint(f, FormatRegion(|f|), Black()), f, |f|);
  }

  /** Masking and drawing the format over any earlier format gives the symbol of the new mask. */
  lemma TrialSymbol(base: Grid, f: Grid, ecl: Ecc, a: nat, msk: nat)
    requires Square(base, |base|) && Square(f, |base|) && MarksFormat(f)
    ensures WithFormat(Masked(WithFormat(base, ecl, a), f, msk), ecl, msk) == Symbol(base, f, ecl, msk)
    ensures Masked(Symbol(base, f, ecl, msk), f, msk) == WithFormat(base, ecl, msk)
  {
    hide Masked, WithFormat;
    MaskUnderFormat(base, f, ecl, a, msk);
    FormatOverFormat(Masked(base, f, msk), ecl, a, msk);
    MaskUnderFormat(Masked(base, f, msk), f, ecl, msk, msk);
    MaskedTwice(base, f, msk);
  }

  /** The modules before trial i: the first trial finds the base, later ones find the format of the last trial. */
  ghost function BeforeTrial(base: Grid, ecl: Ecc, i: nat): (r: Grid)
    requires Square(base, |base|)
    ensures Square(r, |base|)
  {
    if i == 0 then base else WithFormat(base, ecl, i - 1)
  }

  lemma Trial(base: Grid, f: Grid, ecl: Ecc, i: nat, msk: nat)
    requires Square(base, |base|) && Square(f, |base|) && MarksFormat(f)
    ensures WithFormat(Masked(BeforeTrial(base, ecl, i), f, msk), ecl, msk) == Symbol(base, f, ecl, msk)
    ensures Masked(Symbol(base, f, ecl, msk), f, msk) == BeforeTrial(base, ecl, msk + 1)
  {
    hide Masked, WithFormat;
    TrialSymbol(base, f, ecl, if i == 0 then 0 else i - 1, msk);
  }

  /** No mask gives a lower penalty, and none with a smaller number gives the same. */
  ghost predicate BestMask(base: Grid, f: Grid, ecl: Ecc, msk: nat)
    requires Square(base, |base|) && Square(f, |base|) && |base| >= 1
  {
    && (forall k :: 0 <= k < 8 ==> PenaltyScore(Symbol(base, f, ecl, msk)) <= PenaltyScore(Symbol(base, f, ecl, k)))
    && (forall k :: 0 <= k < msk ==> PenaltyScore(Symbol(base, f, ecl, msk)) < PenaltyScore(Symbol(base, f, ecl, k)))
  }

  /** The least value that the largest number of type long may have. */
  const LONG_MAX := 0x7FFF_FFFF

  /** Draws the format bits over grids whose format modules are marked already. */
  method RedrawFormat(modules: array2<bool>, isFunction: array2<bool>, ecl: Ecc, msk: nat)
    requires SameSquare(modules, isFunction) && modules.Length0 >= 21 && msk < 8
    requires MarksFormat(Snapshot(isFunction))
    modifies modules, isFunction
    ensures Snapshot(modules) == WithFormat(old(Snapshot(modules)), ecl, msk)
    ensures Snapshot(isFunction) == old(Snapshot(isFunction))
  {
    hide Paint;
    MarksStay(Snapshot(isFunction));
    DrawFormatBits(modules, isFunction, ecl, msk);
  }

  /**
  Tries all masks, each time undoing the last one.  Every trial scores exactly the symbol that
  forcing that mask would give.  Afterwards only the format bits differ from before, and the mask
  returned has the least penalty, the first of several.
  */
  method ChooseMask(modules: array2<bool>, isFunction: array2<bool>, ecl: Ecc) returns (msk: int)
    requires SameSquare(modules, isFunction) && 21 <= modules.Length0 <= 177 && modules.Length0 % 2 == 1
    requires MarksFormat(Snapshot(isFunction))
    modifies modules, isFunction
    ensures Snapshot(modules) == WithFormat(old(Snapshot(modules)), ecl, 7)
    ensures Snapshot(isFunction) == old(Snapshot(isFunction))
    ensures 0 <= msk < 8 && BestMask(old(Snapshot(modules)), Snapshot(isFunction), ecl, msk)
  {
    hide WithFormat, Masked, Symbol, PenaltyScore, MarksFormat, FormatRegion;
    ghost var base, f := Snapshot(modules), Snapshot(isFunction);
    msk := -1;
    var minPenalty := LONG_MAX;
    for i := 0 to 8
      invariant Snapshot(modules) == BeforeTrial(base, ecl, i) && Snapshot(isFunction) == f
      invariant i == 0 ==> msk == -1 && minPenalty == LONG_MAX
      invariant i > 0 ==> 0 <= msk < i && minPenalty == PenaltyScore(Symbol(base, f, ecl, msk))
      invariant forall k :: 0 <= k < i ==> minPenalty <= PenaltyScore(Symbol(base, f, ecl, k))
      invariant forall k :: 0 <= k < msk ==> minPenalty < PenaltyScore(Symbol(base, f, ecl, k))
    {
      Trial(base, f, ecl, i, i);
      var applied := ApplyMask(modules, isFunction, i);
      RedrawFormat(modules, isFunction, ecl, i);
      var penalty := GetPenaltyScore(modules);
      PenaltyScoreBound(Symbol(base, f, ecl, i));
      if penalty < minPenalty {
        msk := i;
        minPenalty := penalty;
      }
      var undone := ApplyMask(modules, isFunction, i);
    }
  }
}
