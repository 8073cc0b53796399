/**
The field GF(2^8) with reduction polynomial x^8 + x^4 + x^3 + x^2 + 1 (0x11D), in which the
error correction codewords are computed.  Elements are unsigned 8-bit integers.
*/
module GaloisField {
  import opened Bits

  type Element = Byte

  /** Field addition, which is also field subtraction. */
  function Add(x: Element, y: Element): (r: Element)
  {
    assert Pow2(8) == 256;
    XorBound(x, y, 8);
    Xor(x, y)
  }

  lemma AddLaws(x: Element, y: Element, z: Element)
    ensures Add(x, y) == Add(y, x)
    ensures Add(Add(x, y), z) == Add(x, Add(y, z))
    ensures Add(x, 0) == x == Add(0, x)
    ensures Add(x, x) == 0
  {
    hide Xor;
    XorComm(x, y);
    XorAssoc(x, y, z);
    XorZero(x);
    XorSelf(x);
  }

  lemma AddSwap(a: Element, b: Element, c: Element, d: Element)
    ensures Add(Add(a, b), Add(c, d)) == Add(Add(a, c), Add(b, d))
  {
    hide Xor;
    XorSwap(a, b, c, d);
  }

  /** Two elements with sum zero are equal. */
  lemma AddCancel(x: Element, y: Element)
    requires Add(x, y) == 0
    ensures x == y
  {
    hide Add;
    AddLaws(x, y, y);
    AddLaws(y, y, y);
    AddLaws(x, 0, 0);
  }

  lemma AddHalf(y: Element, z: Element)
    ensures Add(y, z) / 2 == Add(y / 2, z / 2)
    ensures Odd(Add(y, z)) == (Odd(y) != Odd(z))
  {
    hide Xor;
    Split(y);
    Split(z);
    XorJoin(y / 2, Odd(y), z / 2, Odd(z));
    JoinSplit(Xor(y / 2, z / 2), Odd(y) != Odd(z));
  }

  /** Multiplication by the polynomial x, followed by reduction. */
  function Times2(z: Element): (r: Element)
  {
    if z < 128 then 2 * z else Add(2 * z - 256, 0x1D)
  }

  /** The shift-and-reduce step as it is written on plain integers. */
  lemma Times2Shift(z: Element)
    ensures Xor(2 * z, z / 128 * 0x11D) == Times2(z)
  {
    hide Xor;
    assert Pow2(8) == 256;
    if z < 128 {
      XorZero(2 * z);
    } else {
      assert z / 128 == 1;
      XorTopBit(2 * z - 256, 0x1D, 8);
    }
  }

  lemma Times2Add(x: Element, y: Element)
    ensures Times2(Add(x, y)) == Add(Times2(x), Times2(y))
  {
    hide Xor;
    assert Pow2(7) == 128;
    var x', y' := x % 128, y % 128;
    XorBound(x', y', 7);
    XorTopBit(x', y', 7);
    XorTopBit(y', x', 7);
    XorComm(x, y);
    XorComm(x', y');
    XorJoin(x', false, y', false);
    AddLaws(2 * x', 2 * y', 0x1D);
    AddLaws(0x1D, 2 * y', 0);
    AddLaws(2 * x', 0x1D, 2 * y');
    AddSwap(2 * x', 0x1D, 2 * y', 0x1D);
    AddLaws(0x1D, 0, 0);
    AddLaws(Add(2 * x', 2 * y'), 0, 0);
  }

  lemma Times2Zero(z: Element)
    ensures Times2(z) == 0 <==> z == 0
  {
    if z >= 128 {
      hide Add;
      if Add(2 * z - 256, 0x1D) == 0 {
        AddCancel(2 * z - 256, 0x1D);
      }
    }
  }

  function Pick(bit: bool, x: Element): (r: Element)
  {
    if bit then x else 0
  }

  /** Field multiplication, by the binary digits of the second factor. */
  function Mul(x: Element, y: Element): (r: Element)
    decreases y
  {
    if y == 0 then 0
    else Add(Times2(Mul(x, y / 2)), Pick(Odd(y), x))
  }

  lemma MulZeroRight(x: Element)
    ensures Mul(x, 0) == 0
  {
  }

  lemma {:induction false} MulUnfold(x: Element, y: Element)
    ensures Mul(x, y) == Add(Times2(Mul(x, y / 2)), Pick(Odd(y), x))
  {
    AddLaws(0, 0, 0);
  }

  lemma {:induction false} MulAddRight(x: Element, y: Element, z: Element)
    ensures Mul(x, Add(y, z)) == Add(Mul(x, y), Mul(x, z))
    decreases y + z
  {
    hide Add, Times2, Mul, Odd;
    if y == 0 {
      MulZeroRight(x);
      AddLaws(z, 0, 0);
      AddLaws(Mul(x, z), 0, 0);
    } else {
      MulAddRight(x, y / 2, z / 2);
      AddHalf(y, z);
      MulUnfold(x, y);
      MulUnfold(x, z);
      MulUnfold(x, Add(y, z));
      Times2Add(Mul(x, y / 2), Mul(x, z / 2));
      AddSwap(Times2(Mul(x, y / 2)), Pick(Odd(y), x), Times2(Mul(x, z / 2)), Pick(Odd(z), x));
      AddLaws(x, 0, 0);
      AddLaws(0, 0, 0);
    }
  }

  lemma {:induction false} MulAddLeft(x: Element, y: Element, z: Element)
    ensures Mul(Add(x, y), z) == Add(Mul(x, z), Mul(y, z))
    decreases z
  {
    hide Add, Times2, Mul, Odd;
    if z == 0 {
      MulZeroRight(x);
      MulZeroRight(y);
      MulZeroRight(Add(x, y));
      AddLaws(0, 0, 0);
    } else {
      MulAddLeft(x, y, z / 2);
      MulUnfold(x, z);
      MulUnfold(y, z);
      MulUnfold(Add(x, y), z);
      Times2Add(Mul(x, z / 2), Mul(y, z / 2));
      AddSwap(Times2(Mul(x, z / 2)), Pick(Odd(z), x), Times2(Mul(y, z / 2)), Pick(Odd(z), y));
      AddLaws(0, 0, 0);
    }
  }

  lemma {:induction false} MulTimes2Left(x: Element, y: Element)
    ensures Mul(Times2(x), y) == Times2(Mul(x, y))
    decreases y
  {
    hide Add, Times2, Mul, Odd;
    Times2Zero(0);
    if y == 0 {
      MulZeroRight(x);
      MulZeroRight(Times2(x));
    } else {
      MulTimes2Left(x, y / 2);
      MulUnfold(x, y);
      MulUnfold(Times2(x), y);
      Times2Add(Times2(Mul(x, y / 2)), Pick(Odd(y), x));
    }
  }

  lemma {:induction false} MulOneLeft(y: Element)
    ensures Mul(1, y) == y
    decreases y
  {
    if y != 0 {
      hide Xor;
      MulOneLeft(y / 2);
      Split(y);
      XorJoin(y / 2, false, 0, Odd(y));
      XorZero(y / 2);
    }
  }

  /** Every element is twice its upper half plus its last digit. */
  lemma SplitElement(x: Element)
    ensures x == Add(Times2(x / 2), Pick(Odd(x), 1))
  {
    hide Xor;
    Split(x);
    XorJoin(x / 2, false, 0, Odd(x));
    XorZero(x / 2);
  }

  lemma {:induction false} MulComm(x: Element, y: Element)
    ensures Mul(x, y) == Mul(y, x)
    decreases x
  {
    hide Add, Times2, Mul, Odd;
    MulZeroLeft(y);
    if x == 0 {
      MulZeroRight(y);
    } else {
      MulComm(x / 2, y);
      SplitElement(x);
      MulAddLeft(Times2(x / 2), Pick(Odd(x), 1), y);
      MulTimes2Left(x / 2, y);
      MulOneLeft(y);
      MulUnfold(y, x);
    }
  }

  lemma {:induction false} MulZeroLeft(y: Element)
    ensures Mul(0, y) == 0
  {
    hide Add, Mul;
    AddLaws(0, 0, 0);
    MulAddLeft(0, 0, y);
    AddLaws(Mul(0, y), 0, 0);
  }

  lemma MulOneRight(x: Element)
    ensures Mul(x, 1) == x
  {
    hide Mul;
    MulComm(x, 1);
    MulOneLeft(x);
  }

  lemma MulTimes2Right(x: Element, y: Element)
    ensures Mul(x, Times2(y)) == Times2(Mul(x, y))
  {
    hide Mul, Times2;
    MulComm(x, Times2(y));
    MulTimes2Left(y, x);
    MulComm(x, y);
  }

  lemma {:induction false} MulAssoc(x: Element, y: Element, z: Element)
    ensures Mul(Mul(x, y), z) == Mul(x, Mul(y, z))
    decreases z
  {
    hide Add, Times2, Mul, Odd;
    MulZeroRight(x);
    if z == 0 {
      MulZeroRight(y);
      MulZeroRight(Mul(x, y));
    } else {
      MulAssoc(x, y, z / 2);
      MulUnfold(y, z);
      MulUnfold(Mul(x, y), z);
      MulAddRight(x, Times2(Mul(y, z / 2)), Pick(Odd(z), y));
      MulTimes2Right(x, Mul(y, z / 2));
    }
  }

  /** Exponentiation. */
  function Power(x: Element, n: nat): (r: Element)
  {
    if n == 0 then 1 else Mul(Power(x, n - 1), x)
  }

  lemma {:induction false} PowerAdd(x: Element, m: nat, n: nat)
    ensures Power(x, m + n) == Mul(Power(x, m), Power(x, n))
  {
    hide Mul;
    if n == 0 {
      MulOneRight(Power(x, m));
    } else {
      PowerAdd(x, m, n - 1);
      MulAssoc(Power(x, m), Power(x, n - 1), x);
    }
  }

  lemma PowerOfTwo(n: nat)
    ensures Power(2, n + 1) == Times2(Power(2, n))
  {
    hide Mul, Times2;
    assert Times2(1) == 2 by {
      Times2One();
    }
    MulTimes2Right(Power(2, n), 1);
    MulOneRight(Power(2, n));
  }

  lemma Times2One()
    ensures Times2(1) == 2
  {
  }
}
