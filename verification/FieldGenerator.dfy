/**
The element 2 generates the multiplicative group of GF(2^8): its powers 2^0 .. 2^254 are
pairwise different and are all the nonzero elements.  Hence the field has no zero divisors.
*/
module FieldGenerator {
  import opened Bits
  import opened Sets
  import opened GaloisField

  //////////////////////////////////////////////////////////////////////////////
  // Multiplication by 2 on the eight binary digits of an element
  //////////////////////////////////////////////////////////////////////////////

  datatype Octet = Octet(b7: bool, b6: bool, b5: bool, b4: bool, b3: bool, b2: bool, b1: bool, b0: bool)

  const ONE := Octet(false, false, false, false, false, false, false, true)

  function Value(o: Octet): (r: nat)
  {
    Join(Join(Join(Join(Join(Join(Join(Join(0, o.b7), o.b6), o.b5), o.b4), o.b3), o.b2), o.b1), o.b0)
  }

  function Digit(b: bool): (r: nat)
  {
    if b then 1 else 0
  }

  lemma ValueSum(o: Octet)
    ensures Value(o) == 128 * Digit(o.b7) + 64 * Digit(o.b6) + 32 * Digit(o.b5) + 16 * Digit(o.b4)
                        + 8 * Digit(o.b3) + 4 * Digit(o.b2) + 2 * Digit(o.b1) + Digit(o.b0)
  {
  }

  lemma ValueXor(o: Octet, p: Octet)
    ensures Xor(Value(o), Value(p)) == Value(Octet(o.b7 != p.b7, o.b6 != p.b6, o.b5 != p.b5, o.b4 != p.b4,
                                                   o.b3 != p.b3, o.b2 != p.b2, o.b1 != p.b1, o.b0 != p.b0))
  {
    hide Xor, Join;
    XorZero(0);
    XorJoin(0, o.b7, 0, p.b7);
    var x, y := Join(0, o.b7), Join(0, p.b7);
    XorJoin(x, o.b6, y, p.b6);
    x, y := Join(x, o.b6), Join(y, p.b6);
    XorJoin(x, o.b5, y, p.b5);
    x, y := Join(x, o.b5), Join(y, p.b5);
    XorJoin(x, o.b4, y, p.b4);
    x, y := Join(x, o.b4), Join(y, p.b4);
    XorJoin(x, o.b3, y, p.b3);
    x, y := Join(x, o.b3), Join(y, p.b3);
    XorJoin(x, o.b2, y, p.b2);
    x, y := Join(x, o.b2), Join(y, p.b2);
    XorJoin(x, o.b1, y, p.b1);
    x, y := Join(x, o.b1), Join(y, p.b1);
    XorJoin(x, o.b0, y, p.b0);
  }

  /** Multiplication by 2. */
  function Next(o: Octet): (r: Octet)
  {
    Octet(o.b6, o.b5, o.b4, o.b3 != o.b7, o.b2 != o.b7, o.b1 != o.b7, o.b0, o.b7)
  }

  lemma ValueShift(o: Octet)
    ensures var shifted := Octet(o.b6, o.b5, o.b4, o.b3, o.b2, o.b1, o.b0, false);
            Value(shifted) == 2 * Value(o) - 256 * Digit(o.b7)
  {
    hide Value;
    ValueSum(o);
    ValueSum(Octet(o.b6, o.b5, o.b4, o.b3, o.b2, o.b1, o.b0, false));
  }

  lemma ValueTop(o: Octet)
    ensures Value(o) < 256 && (Value(o) < 128 <==> !o.b7)
  {
    hide Value;
    ValueSum(o);
  }

  lemma ValueReduction()
    ensures Value(Octet(false, false, false, true, true, true, false, true)) == 0x1D
  {
  }

  lemma ValueNext(o: Octet)
    ensures Value(o) < 256 && Times2(Value(o)) == Value(Next(o))
  {
    hide Xor, Value;
    ValueShift(o);
    ValueTop(o);
    ValueReduction();
    if o.b7 {
      ValueXor(Octet(o.b6, o.b5, o.b4, o.b3, o.b2, o.b1, o.b0, false),
               Octet(false, false, false, true, true, true, false, true));
    }
  }

  /** Only the octet ONE has value 1. */
  lemma ValueOne(o: Octet)
    ensures Value(o) == 1 <==> o == ONE
  {
    hide Value;
    ValueSum(o);
  }

  //////////////////////////////////////////////////////////////////////////////
  // The orbit of ONE
  //////////////////////////////////////////////////////////////////////////////

  function Iterate(o: Octet, n: nat): (r: Octet)
    decreases n
  {
    if n == 0 then o else Next(Iterate(o, n - 1))
  }

  lemma {:induction false} IterateAdd(o: Octet, m: nat, n: nat)
    ensures Iterate(o, m + n) == Iterate(Iterate(o, m), n)
  {
    hide Next;
    if n != 0 {
      IterateAdd(o, m, n - 1);
    }
  }

  /** Going round an orbit any number of times changes nothing. */
  lemma {:induction false} IterateMany(o: Octet, m: nat, k: nat)
    requires Iterate(o, m) == o
    ensures Iterate(o, k * m) == o
  {
    if k != 0 {
      IterateMany(o, m, k - 1);
      IterateAdd(o, (k - 1) * m, m);
      assert (k - 1) * m + m == k * m;
    }
  }

  lemma {:induction false} PowerIsIterate(n: nat)
    ensures Power(2, n) == Value(Iterate(ONE, n))
  {
    hide Mul, Next, Value;
    if n == 0 {
      ValueSum(ONE);
    } else {
      PowerIsIterate(n - 1);
      PowerOfTwo(n - 1);
      ValueNext(Iterate(ONE, n - 1));
    }
  }

  // Multiplication by 2^4, 2^8, 2^15 and 2^17 in one go.

  function Next4(o: Octet): (r: Octet)
  {
    Octet(o.b7 != o.b3,
          (o.b7 != o.b6) != o.b2,
          ((o.b7 != o.b6) != o.b5) != o.b1,
          ((o.b6 != o.b5) != o.b4) != o.b0,
          (o.b7 != o.b5) != o.b4,
          o.b6 != o.b4,
          o.b5,
          o.b4)
  }

  function Next8(o: Octet): (r: Octet)
  {
    Octet((o.b5 != o.b4) != o.b3,
          (o.b4 != o.b3) != o.b2,
          ((o.b7 != o.b3) != o.b2) != o.b1,
          ((o.b6 != o.b2) != o.b1) != o.b0,
          ((o.b4 != o.b3) != o.b1) != o.b0,
          (((o.b7 != o.b5) != o.b4) != o.b2) != o.b0,
          ((o.b7 != o.b6) != o.b5) != o.b1,
          ((o.b6 != o.b5) != o.b4) != o.b0)
  }

  function Next15(o: Octet): (r: Octet)
  {
    Octet((o.b7 != o.b5) != o.b2,
          ((o.b7 != o.b6) != o.b4) != o.b1,
          (((o.b7 != o.b6) != o.b5) != o.b3) != o.b0,
          ((o.b6 != o.b5) != o.b4) != o.b2,
          (((o.b7 != o.b4) != o.b3) != o.b2) != o.b1,
          (((o.b6 != o.b5) != o.b3) != o.b1) != o.b0,
          (o.b7 != o.b4) != o.b0,
          o.b6 != o.b3)
  }

  function Next17(o: Octet): (r: Octet)
  {
    Octet((((o.b7 != o.b6) != o.b5) != o.b3) != o.b0,
          ((o.b6 != o.b5) != o.b4) != o.b2,
          ((o.b5 != o.b4) != o.b3) != o.b1,
          ((o.b4 != o.b3) != o.b2) != o.b0,
          ((((o.b7 != o.b6) != o.b5) != o.b2) != o.b1) != o.b0,
          ((o.b7 != o.b4) != o.b3) != o.b1,
          (o.b7 != o.b5) != o.b2,
          ((o.b7 != o.b6) != o.b4) != o.b1)
  }

  lemma NextFourTimes(o: Octet)
    ensures Next4(o) == Next(Next(Next(Next(o))))
  {
  }

  lemma IsNext4(o: Octet)
    ensures Next4(o) == Iterate(o, 4)
  {
    hide Next, Next4;
    NextFourTimes(o);
  }

  lemma Next4Twice(o: Octet)
    ensures Next8(o) == Next4(Next4(o))
  {
  }

  lemma IsNext8(o: Octet)
    ensures Next8(o) == Iterate(o, 8)
  {
    hide Next4, Next8, Next;
    Next4Twice(o);
    IsNext4(o);
    IsNext4(Next4(o));
    IterateAdd(o, 4, 4);
  }

  lemma Next15Next(o: Octet)
    ensures Next15(Next(o)) == Next8(Next8(o))
  {
  }

  lemma NextNext16(o: Octet)
    ensures Next17(o) == Next(Next8(Next8(o)))
  {
  }

  lemma IsNext17(o: Octet)
    ensures Next17(o) == Iterate(o, 17)
    ensures Next15(Next(o)) == Iterate(o, 16)
  {
    hide Next8, Next, Next17, Next15;
    Next15Next(o);
    NextNext16(o);
    IsNext8(o);
    IsNext8(Next8(o));
    IterateAdd(o, 8, 8);
    assert Iterate(o, 17) == Next(Iterate(o, 16));
  }

  lemma NextOnto(o: Octet) returns (p: Octet)
    ensures Next(p) == o
  {
    p := Octet(o.b0, o.b7, o.b6, o.b5, o.b4 != o.b0, o.b3 != o.b0, o.b2 != o.b0, o.b1);
  }

  lemma IsNext15(o: Octet)
    ensures Next15(o) == Iterate(o, 15)
  {
    hide Next, Next15, Next17;
    var p := NextOnto(o);
    IsNext17(p);
    IterateAdd(p, 1, 15);
    assert Iterate(p, 1) == Next(Iterate(p, 0));
  }

  /** The octets of 2^0, 2^17, 2^34, ... */
  function Orbit17(k: nat): (r: Octet)
  {
    if k == 0 then ONE else Next17(Orbit17(k - 1))
  }

  /** The octets of 2^0, 2^15, 2^30, ... */
  function Orbit15(k: nat): (r: Octet)
  {
    if k == 0 then ONE else Next15(Orbit15(k - 1))
  }

  lemma {:induction false} OrbitIsIterate(k: nat)
    ensures Orbit17(k) == Iterate(ONE, 17 * k)
    ensures Orbit15(k) == Iterate(ONE, 15 * k)
  {
    hide Next15, Next17, Next, Iterate;
    if k == 0 {
      IterateZero(ONE);
    } else {
      OrbitIsIterate(k - 1);
      IsNext17(Orbit17(k - 1));
      IterateAdd(ONE, 17 * (k - 1), 17);
      IsNext15(Orbit15(k - 1));
      IterateAdd(ONE, 15 * (k - 1), 15);
    }
  }

  lemma IterateZero(o: Octet)
    ensures Iterate(o, 0) == o
  {
  }

  lemma Orbit17Period(k: nat)
    requires k <= 15
    ensures Orbit17(k) == ONE <==> k == 0 || k == 15
  {
    var e1 := Next17(ONE);
    var e2 := Next17(e1);
    var e3 := Next17(e2);
    var e4 := Next17(e3);
    var e5 := Next17(e4);
    assert Orbit17(5) == e5 && e1 != ONE && e2 != ONE && e3 != ONE && e4 != ONE && e5 != ONE;
    var e6 := Next17(e5);
    var e7 := Next17(e6);
    var e8 := Next17(e7);
    var e9 := Next17(e8);
    var e10 := Next17(e9);
    assert Orbit17(10) == e10 && e6 != ONE && e7 != ONE && e8 != ONE && e9 != ONE && e10 != ONE;
    var e11 := Next17(e10);
    var e12 := Next17(e11);
    var e13 := Next17(e12);
    var e14 := Next17(e13);
    assert Orbit17(14) == e14 && e11 != ONE && e12 != ONE && e13 != ONE && e14 != ONE && Next17(e14) == ONE;
  }

  lemma Orbit15Period(k: nat)
    requires k <= 16
    ensures Orbit15(k) == ONE <==> k == 0
  {
    var e1 := Next15(ONE);
    var e2 := Next15(e1);
    var e3 := Next15(e2);
    var e4 := Next15(e3);
    var e5 := Next15(e4);
    var e6 := Next15(e5);
    assert Orbit15(6) == e6 && e1 != ONE && e2 != ONE && e3 != ONE && e4 != ONE && e5 != ONE && e6 != ONE;
    var e7 := Next15(e6);
    var e8 := Next15(e7);
    var e9 := Next15(e8);
    var e10 := Next15(e9);
    var e11 := Next15(e10);
    assert Orbit15(11) == e11 && e7 != ONE && e8 != ONE && e9 != ONE && e10 != ONE && e11 != ONE;
    var e12 := Next15(e11);
    var e13 := Next15(e12);
    var e14 := Next15(e13);
    var e15 := Next15(e14);
    var e16 := Next15(e15);
    assert Orbit15(16) == e16 && e12 != ONE && e13 != ONE && e14 != ONE && e15 != ONE && e16 != ONE;
  }

  /** Of the powers of 2, only 2^0, 2^255, 2^510, ... are one. */
  lemma OrderOfTwo(m: nat)
    requires 0 < m < 255
    ensures Power(2, m) != 1
  {
    hide Power, Iterate, Orbit15, Orbit17, Value;
    PowerIsIterate(m);
    ValueOne(Iterate(ONE, m));
    if Iterate(ONE, m) == ONE {
      IterateMany(ONE, m, 17);
      OrbitIsIterate(m);
      Orbit17Repeats(m / 15, m % 15);
      Orbit17Period(m % 15);
      assert m == 15 * (m / 15);
      OrbitIsIterate(m / 15);
      Orbit15Period(m / 15);
    }
  }

  lemma Orbit17Repeats(q: nat, r: nat)
    ensures Orbit17(15 * q + r) == Orbit17(r)
  {
    hide Orbit17, Iterate;
    Orbit17Period(15);
    OrbitIsIterate(15);
    IterateMany(ONE, 255, q);
    OrbitIsIterate(15 * q + r);
    OrbitIsIterate(r);
    IterateAdd(ONE, q * 255, 17 * r);
  }

  //////////////////////////////////////////////////////////////////////////////
  // Consequences for the field
  //////////////////////////////////////////////////////////////////////////////

  lemma {:induction false} PowerOfTwoNonzero(n: nat)
    ensures Power(2, n) != 0
  {
    hide Mul, Times2;
    if n != 0 {
      PowerOfTwoNonzero(n - 1);
      PowerOfTwo(n - 1);
      Times2Zero(Power(2, n - 1));
    }
  }

  /** Multiplication by a power of 2 has no zero divisors. */
  lemma {:induction false} PowerOfTwoMul(n: nat, y: Element)
    requires y != 0
    ensures Mul(Power(2, n), y) != 0
  {
    hide Mul, Times2;
    if n == 0 {
      MulOneLeft(y);
    } else {
      PowerOfTwoMul(n - 1, y);
      PowerOfTwo(n - 1);
      MulTimes2Left(Power(2, n - 1), y);
      Times2Zero(Mul(Power(2, n - 1), y));
    }
  }

  /** The first 255 powers of 2 are pairwise different. */
  lemma PowersOfTwoDistinct(i: nat, j: nat)
    requires i < j < 255
    ensures Power(2, i) != Power(2, j)
  {
    hide Mul, Power, Add;
    var p, q := Power(2, i), Power(2, j - i);
    PowerAdd(2, i, j - i);
    OrderOfTwo(j - i);
    if p == Power(2, j) {
      // p * (q + 1) == 0
      MulAddRight(p, q, 1);
      MulOneRight(p);
      AddLaws(p, 0, 0);
      if Add(q, 1) == 0 {
        AddCancel(q, 1);
      } else {
        PowerOfTwoMul(i, Add(q, 1));
      }
    }
  }

  ghost function PowersBelow(n: nat): (s: set<Element>)
  {
    if n == 0 then {} else PowersBelow(n - 1) + {Power(2, n - 1)}
  }

  lemma {:induction false} PowersBelowMember(n: nat, e: Element) returns (i: nat)
    requires e in PowersBelow(n)
    ensures i < n && e == Power(2, i)
  {
    hide Power;
    if e == Power(2, n - 1) {
      i := n - 1;
    } else {
      i := PowersBelowMember(n - 1, e);
    }
  }

  lemma {:induction false} PowersBelowSize(n: nat)
    requires n <= 255
    ensures |PowersBelow(n)| == n
  {
    hide Power;
    if n != 0 {
      PowersBelowSize(n - 1);
      if Power(2, n - 1) in PowersBelow(n - 1) {
        var i := PowersBelowMember(n - 1, Power(2, n - 1));
        PowersOfTwoDistinct(i, n - 1);
      }
    }
  }

  /** Every nonzero element is a power of 2. */
  lemma Logarithm(x: Element) returns (n: nat)
    requires x != 0
    ensures n < 255 && x == Power(2, n)
  {
    hide Power, PowersBelow, Range;
    forall e | e in PowersBelow(255)
      ensures e in Range(1, 256)
    {
      var i := PowersBelowMember(255, e);
      PowerOfTwoNonzero(i);
    }
    PowersBelowSize(255);
    SubsetOfSameSize(PowersBelow(255), Range(1, 256));
    n := PowersBelowMember(255, x);
  }

  lemma NoZeroDivisors(x: Element, y: Element)
    ensures Mul(x, y) == 0 <==> x == 0 || y == 0
  {
    hide Mul, Power;
    MulZeroRight(x);
    MulZeroLeft(y);
    if x != 0 && y != 0 {
      var n := Logarithm(x);
      PowerOfTwoMul(n, y);
    }
  }
}
