/**
The eight mask patterns as pictures (section 7.8.2 of ISO/IEC 18004:2015).  A reader compares
modules with these pictures; the encoder computes the same patterns by formulas.
*/
module MaskPictures {
  import opened Arithmetic
  import opened Masking

  /** The part of a mask pattern that repeats to the right and downwards; # is an inverted module. */
  function MaskTile(msk: int): (tile: seq<string>)
    ensures |tile| >= 1 && forall r :: 0 <= r < |tile| ==> |tile[r]| == |tile[0]| >= 1
  {
    if msk == 0 then ["#.",
                      ".#"]
    else if msk == 1 then ["#",
                           "."]
    else if msk == 2 then ["#.."]
    else if msk == 3 then ["#..",
                           "..#",
                           ".#."]
    else if msk == 4 then ["###...",
                           "###...",
                           "...###",
                           "...###"]
    else if msk == 5 then ["######",
                           "#.....",
                           "#..#..",
                           "#.#.#.",
                           "#..#..",
                           "#....."]
    else if msk == 6 then ["######",
                           "###...",
                           "##.##.",
                           "#.#.#.",
                           "#.##.#",
                           "#...##"]
    else ["#.#.#.",
          "...###",
          "#...##",
          ".#.#.#",
          "###...",
          ".###.."]
  }

  /** Whether the picture of a mask pattern shows an inverted module in column x and row y. */
  predicate Shaded(msk: int, x: nat, y: nat)
  {
    var tile := MaskTile(msk);
    tile[y % |tile|][x % |tile[0]|] == '#'
  }

  lemma ModOfProduct(x: nat, y: nat)
    ensures x * y % 6 == (x % 6) * (y % 6) % 6
    ensures x * y % 3 == (x % 6) * (y % 6) % 3
  {
    var a, b, p, q := x % 6, y % 6, x / 6, y / 6;
    var k := 6 * p * q + p * b + a * q;
    assert x * y == 6 * k + a * b by { Expand(p, a, q, b); }
    assert k >= 0 && a * b >= 0;
    Mod6(k, a * b);
    Remainder3(k, a * b);
  }

  lemma Expand(p: nat, a: nat, q: nat, b: nat)
    ensures (6 * p + a) * (6 * q + b) == 6 * (6 * p * q + p * b + a * q) + a * b
    ensures 6 * p * q + p * b + a * q >= 0 && a * b >= 0
  {
  }

  lemma Mod6(k: nat, r: nat)
    ensures (6 * k + r) % 6 == r % 6
  {
    DivideDigit(k + r / 6, 6, r % 6);
  }

  lemma TileFive(a: nat, b: nat)
    requires a < 6 && b < 6
    ensures MaskTile(5)[b][a] == '#' <==> a * b % 6 == 0
  {
  }

  lemma TileSix(a: nat, b: nat)
    requires a < 6 && b < 6
    ensures MaskTile(6)[b][a] == '#' <==> a * b % 6 < 3
  {
  }

  lemma TileSeven(a: nat, b: nat)
    requires a < 6 && b < 6
    ensures MaskTile(7)[b][a] == '#' <==> ((a % 2 == b % 2) == (a * b % 3 != 1))
  {
  }

  lemma SmallTiles(msk: int, x: nat, y: nat)
    requires 0 <= msk <= 3
    ensures Shaded(msk, x, y) == Inverts(msk, x, y)
  {
    if msk == 3 {
      SumOfRemainders(x, y);
    }
  }

  lemma SumOfRemainders(x: nat, y: nat)
    ensures (x + y) % 3 == (x % 3 + y % 3) % 3
  {
    DivideDigit(x / 3 + y / 3 + (x % 3 + y % 3) / 3, 3, (x % 3 + y % 3) % 3);
  }

  lemma ColumnsOfThree(x: nat)
    ensures x % 6 / 3 == x / 3 % 2
  {
    var q, r := x / 6, x % 6;
    DivideDigit(2 * q + r / 3, 3, r % 3);
    DivideDigit(q, 2, r / 3);
  }

  lemma RowsOfTwo(y: nat)
    ensures y % 4 / 2 == y / 2 % 2
  {
    var q, r := y / 4, y % 4;
    DivideDigit(2 * q + r / 2, 2, r % 2);
    DivideDigit(q, 2, r / 2);
  }

  lemma TileFour(x: nat, y: nat)
    ensures Shaded(4, x, y) == Inverts(4, x, y)
  {
    ColumnsOfThree(x);
    RowsOfTwo(y);
  }

  lemma ParityOfRemainder(x: nat)
    ensures x % 6 % 2 == x % 2
  {
    Remainder2(x / 6, x % 6);
  }

  /** The formulas compute exactly the pictures, at every position. */
  lemma ShadedIsInverts(msk: int, x: nat, y: nat)
    ensures Shaded(msk, x, y) == Inverts(msk, x, y)
  {
    if 0 <= msk <= 3 {
      SmallTiles(msk, x, y);
    } else if msk == 4 {
      TileFour(x, y);
    } else {
      LargeTiles(msk, x, y);
    }
  }

  lemma LargeTiles(msk: int, x: nat, y: nat)
    requires msk < 0 || msk > 4
    ensures Shaded(msk, x, y) == Inverts(msk, x, y)
  {
    ModOfProduct(x, y);
    ParityOfRemainder(x);
    ParityOfRemainder(y);
    TileFive(x % 6, y % 6);
    TileSix(x % 6, y % 6);
    TileSeven(x % 6, y % 6);
  }
}
