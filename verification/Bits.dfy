/** Binary digits of non-negative integers. */
module Bits {

  /** An unsigned 8-bit integer. */
  type Byte = b: nat | b < 256

  function Pow2(n: nat): (r: nat)
    ensures r >= 1
  {
    if n == 0 then 1 else 2 * Pow2(n - 1)
  }

  /** The number with binary digits p followed by the given last digit. */
  function Join(p: nat, bit: bool): (r: nat)
  {
    2 * p + if bit then 1 else 0
  }

  predicate Odd(a: nat) { a % 2 == 1 }

  lemma Split(a: nat)
    ensures a == Join(a / 2, Odd(a))
  {
  }

  lemma JoinSplit(p: nat, bit: bool)
    ensures Join(p, bit) / 2 == p && Odd(Join(p, bit)) == bit
  {
  }

  /** Bitwise exclusive or of two non-negative integers. */
  function Xor(a: nat, b: nat): (r: nat)
    decreases a, b
  {
    if a == 0 && b == 0 then 0
    else Join(Xor(a / 2, b / 2), Odd(a) != Odd(b))
  }

  lemma {:induction false} XorJoin(p: nat, s: bool, q: nat, t: bool)
    ensures Xor(Join(p, s), Join(q, t)) == Join(Xor(p, q), s != t)
  {
    JoinSplit(p, s);
    JoinSplit(q, t);
  }

  lemma {:induction false} XorComm(a: nat, b: nat)
    ensures Xor(a, b) == Xor(b, a)
    decreases a + b
  {
    if a + b != 0 {
      XorComm(a / 2, b / 2);
    }
  }

  lemma {:induction false} XorZero(a: nat)
    ensures Xor(a, 0) == a == Xor(0, a)
  {
    if a != 0 {
      XorZero(a / 2);
    }
  }

  lemma {:induction false} XorSelf(a: nat)
    ensures Xor(a, a) == 0
  {
    if a != 0 {
      XorSelf(a / 2);
    }
  }

  lemma {:induction false} XorAssoc(a: nat, b: nat, c: nat)
    ensures Xor(Xor(a, b), c) == Xor(a, Xor(b, c))
    decreases a + b + c
  {
    hide Xor, Join, Odd;
    if a == 0 {
      XorZero(b);
      XorZero(Xor(b, c));
    } else {
      Split(a); Split(b); Split(c);
      XorAssoc(a / 2, b / 2, c / 2);
      XorAssocJoin(a / 2, Odd(a), b / 2, Odd(b), c / 2, Odd(c));
    }
  }
  
  lemma {:induction false} XorAssocJoin(p: nat, s: bool, q: nat, t: bool, r: nat, u: bool)
    requires Xor(Xor(p, q), r) == Xor(p, Xor(q, r))
    ensures Xor(Xor(Join(p, s), Join(q, t)), Join(r, u)) == Xor(Join(p, s), Xor(Join(q, t), Join(r, u)))
  {
    hide Xor, Join;
    XorJoin(p, s, q, t);
    XorJoin(q, t, r, u);
    XorJoin(Xor(p, q), s != t, r, u);
    XorJoin(p, s, Xor(q, r), t != u);
  }

  lemma {:induction false} XorSwap(a: nat, b: nat, c: nat, d: nat)
    ensures Xor(Xor(a, b), Xor(c, d)) == Xor(Xor(a, c), Xor(b, d))
  {
    hide Xor;
    calc {
      Xor(Xor(a, b), Xor(c, d));
      { XorAssoc(a, b, Xor(c, d)); }
      Xor(a, Xor(b, Xor(c, d)));
      { XorAssoc(b, c, d); XorComm(b, c); XorAssoc(c, b, d); }
      Xor(a, Xor(c, Xor(b, d)));
      { XorAssoc(a, c, Xor(b, d)); }
      Xor(Xor(a, c), Xor(b, d));
    }
  }

  lemma {:induction false} XorBound(a: nat, b: nat, n: nat)
    requires a < Pow2(n) && b < Pow2(n)
    ensures Xor(a, b) < Pow2(n)
  {
    if a + b != 0 {
      XorBound(a / 2, b / 2, n - 1);
    }
  }

  /** A bit above both numbers: set in one argument it survives, set in both it cancels. */
  lemma {:induction false} XorTopBit(a: nat, b: nat, n: nat)
    requires a < Pow2(n) && b < Pow2(n)
    ensures Xor(Pow2(n) + a, b) == Pow2(n) + Xor(a, b)
    ensures Xor(Pow2(n) + a, Pow2(n) + b) == Xor(a, b)
  {
    hide Xor;
    if n == 0 {
      XorTopBitBase();
    } else {
      XorTopBit(a / 2, b / 2, n - 1);
      XorTopBitJoin(a / 2, Odd(a), b / 2, Odd(b), Pow2(n - 1));
      Split(a);
      Split(b);
    }
  }

  lemma XorTopBitBase()
    ensures Xor(1, 0) == 1 && Xor(1, 1) == 0 && Xor(0, 0) == 0
  {
  }

  lemma {:induction false} XorTopBitJoin(p: nat, s: bool, q: nat, t: bool, top: nat)
    requires Xor(top + p, q) == top + Xor(p, q)
    requires Xor(top + p, top + q) == Xor(p, q)
    ensures Xor(2 * top + Join(p, s), Join(q, t)) == 2 * top + Xor(Join(p, s), Join(q, t))
    ensures Xor(2 * top + Join(p, s), 2 * top + Join(q, t)) == Xor(Join(p, s), Join(q, t))
  {
    hide Xor;
    XorJoin(p, s, q, t);
    XorJoin(top + p, s, q, t);
    XorJoin(top + p, s, top + q, t);
  }

  /** Shift right. */
  function Shr(a: nat, i: nat): (r: nat)
    ensures r <= a
  {
    if i == 0 then a else Shr(a, i - 1) / 2
  }

  lemma {:induction false} ShrHalf(a: nat, i: nat)
    ensures Shr(a / 2, i) == Shr(a, i + 1)
  {
    if i != 0 {
      ShrHalf(a, i - 1);
    }
  }

  lemma {:induction false} ShrZero(a: nat, i: nat)
    ensures Shr(a, i) == 0 <==> a < Pow2(i)
  {
    if i != 0 {
      ShrZero(a / 2, i - 1);
      ShrHalf(a, i - 1);
    }
  }

  /** Bitwise or of two non-negative integers. */
  function Or(a: nat, b: nat): (r: nat)
    decreases a, b
  {
    if a == 0 && b == 0 then 0
    else Join(Or(a / 2, b / 2), Odd(a) || Odd(b))
  }

  lemma {:induction false} OrJoin(p: nat, s: bool, q: nat, t: bool)
    ensures Or(Join(p, s), Join(q, t)) == Join(Or(p, q), s || t)
  {
    JoinSplit(p, s);
    JoinSplit(q, t);
  }

  lemma {:induction false} OrZero(a: nat)
    ensures Or(a, 0) == a
  {
    if a != 0 {
      OrZero(a / 2);
    }
  }

  /** Or-ing a bit into the place just below the digits of v appends it to them. */
  lemma {:induction false} OrShift(v: nat, bit: bool, m: nat)
    ensures Or(v * Pow2(m + 1), (if bit then 1 else 0) * Pow2(m)) == Join(v, bit) * Pow2(m)
  {
    hide Or;
    if m == 0 {
      assert Pow2(1) == 2 && Pow2(0) == 1;
      OrJoin(v, false, 0, bit);
      OrZero(v);
    } else {
      OrShift(v, bit, m - 1);
      var b := if bit then 1 else 0;
      OrJoin(v * Pow2(m), false, b * Pow2(m - 1), false);
      TimesPow2(v, m);
      TimesPow2(b, m - 1);
      TimesPow2(Join(v, bit), m - 1);
    }
  }

  lemma TimesPow2(v: nat, m: nat)
    ensures v * Pow2(m + 1) == 2 * (v * Pow2(m))
  {
  }

  /** Or-ing a number into the places below a shifted one is adding it. */
  lemma {:induction false} OrBelow(a: nat, b: nat, n: nat)
    requires b < Pow2(n)
    ensures Or(a * Pow2(n), b) == a * Pow2(n) + b
  {
    hide Or;
    if n == 0 {
      OrZero(a);
    } else {
      OrBelow(a, b / 2, n - 1);
      OrJoin(a * Pow2(n - 1), false, b / 2, Odd(b));
      assert a * Pow2(n) == 2 * (a * Pow2(n - 1));
    }
  }

  lemma {:induction false} XorBelow(a: nat, b: nat, n: nat)
    requires b < Pow2(n)
    ensures Xor(a * Pow2(n), b) == a * Pow2(n) + b
  {
    hide Xor;
    if n == 0 {
      XorZero(a);
    } else {
      XorBelow(a, b / 2, n - 1);
      XorJoin(a * Pow2(n - 1), false, b / 2, Odd(b));
      TimesPow2(a, n - 1);
    }
  }

  /** The top digit of a number with exactly i + 1 binary digits. */
  lemma {:induction false} ShrTop(a: nat, i: nat)
    requires a < Pow2(i + 1)
    ensures Shr(a, i) == if a < Pow2(i) then 0 else 1
  {
    if i != 0 {
      ShrTop(a / 2, i - 1);
      ShrHalf(a, i - 1);
    }
  }

  lemma {:induction false} XorDouble(a: nat, b: nat)
    ensures Xor(2 * a, 2 * b) == 2 * Xor(a, b)
  {
    XorJoin(a, false, b, false);
  }
}
