/**
Polynomials over GF(2^8).  A polynomial is the sequence of its coefficients from the highest
to the lowest power, as the encoder stores data blocks and divisors.
*/
module Polynomials {
  import opened Bits
  import opened GaloisField

  type Poly = seq<Element>

  function Zeros(n: nat): (r: Poly)
    ensures |r| == n
    ensures forall i :: 0 <= i < n ==> r[i] == 0
  {
    seq(n, i => 0)
  }

  /** Coefficientwise sum. */
  function Sum(p: Poly, q: Poly): (r: Poly)
    requires |p| == |q|
    ensures |r| == |p|
    ensures forall i :: 0 <= i < |p| ==> r[i] == Add(p[i], q[i])
  {
    seq(|p|, i requires 0 <= i < |p| => Add(p[i], q[i]))
  }

  /** Product with a constant. */
  function Scale(p: Poly, c: Element): (r: Poly)
    ensures |r| == |p|
    ensures forall i :: 0 <= i < |p| ==> r[i] == Mul(p[i], c)
  {
    seq(|p|, i requires 0 <= i < |p| => Mul(p[i], c))
  }

  /** Horner evaluation. */
  function Eval(p: Poly, x: Element): (r: Element)
  {
    if |p| == 0 then 0
    else Add(Mul(Eval(p[..|p| - 1], x), x), p[|p| - 1])
  }

  lemma EvalSnoc(p: Poly, c: Element, x: Element)
    ensures Eval(p + [c], x) == Add(Mul(Eval(p, x), x), c)
  {
    assert (p + [c])[..|p|] == p;
  }

  lemma {:induction false} EvalSum(p: Poly, q: Poly, x: Element)
    requires |p| == |q|
    ensures Eval(Sum(p, q), x) == Add(Eval(p, x), Eval(q, x))
  {
    hide Add, Mul;
    if |p| == 0 {
      AddLaws(0, 0, 0);
    } else {
      var n := |p| - 1;
      EvalSum(p[..n], q[..n], x);
      assert Sum(p, q)[..n] == Sum(p[..n], q[..n]);
      MulAddLeft(Eval(p[..n], x), Eval(q[..n], x), x);
      AddSwap(Mul(Eval(p[..n], x), x), Mul(Eval(q[..n], x), x), p[n], q[n]);
    }
  }

  lemma {:induction false} EvalScale(p: Poly, c: Element, x: Element)
    ensures Eval(Scale(p, c), x) == Mul(Eval(p, x), c)
  {
    hide Add, Mul;
    if |p| == 0 {
      MulZeroLeft(c);
    } else {
      var n := |p| - 1;
      var e := Eval(p[..n], x);
      EvalScale(p[..n], c, x);
      assert Scale(p, c)[..n] == Scale(p[..n], c);
      MulAddLeft(Mul(e, x), p[n], c);
      MulAssoc(e, c, x);
      MulComm(c, x);
      MulAssoc(e, x, c);
    }
  }

  lemma {:induction false} EvalConcat(p: Poly, q: Poly, x: Element)
    ensures Eval(p + q, x) == Add(Mul(Eval(p, x), Power(x, |q|)), Eval(q, x))
  {
    hide Add, Mul;
    if |q| == 0 {
      assert p + q == p;
      MulOneRight(Eval(p, x));
      AddLaws(Eval(p, x), 0, 0);
    } else {
      var n := |q| - 1;
      var e, f := Mul(Eval(p, x), Power(x, n)), Eval(q[..n], x);
      EvalConcat(p, q[..n], x);
      assert (p + q)[..|p| + n] == p + q[..n];
      MulAddLeft(e, f, x);
      MulAssoc(Eval(p, x), Power(x, n), x);
      AddLaws(Mul(e, x), Mul(f, x), q[n]);
    }
  }

  lemma {:induction false} EvalZeros(n: nat, x: Element)
    ensures Eval(Zeros(n), x) == 0
  {
    if n != 0 {
      hide Add, Mul;
      EvalZeros(n - 1, x);
      assert Zeros(n)[..n - 1] == Zeros(n - 1);
      MulZeroLeft(x);
      AddLaws(0, 0, 0);
    }
  }

  //////////////////////////////////////////////////////////////////////////////
  // Products
  //////////////////////////////////////////////////////////////////////////////

  /** The product with the monic linear polynomial x - root. */
  function TimesLinear(p: Poly, root: Element): (r: Poly)
    ensures |r| == |p| + 1
  {
    Sum(p + [0], [0] + Scale(p, root))
  }

  lemma EvalTimesLinear(p: Poly, root: Element, x: Element)
    ensures Eval(TimesLinear(p, root), x) == Mul(Eval(p, x), Add(x, root))
  {
    hide Add, Mul;
    EvalSum(p + [0], [0] + Scale(p, root), x);
    EvalSnoc(p, 0, x);
    AddLaws(Mul(Eval(p, x), x), 0, 0);
    EvalConcat([0], Scale(p, root), x);
    assert [0] == Zeros(1);
    EvalZeros(1, x);
    MulZeroLeft(Power(x, |p|));
    EvalScale(p, root, x);
    AddLaws(Mul(Eval(p, x), root), 0, 0);
    MulAddRight(Eval(p, x), x, root);
  }

  /** p plus the shorter polynomial q. */
  function SumLow(p: Poly, q: Poly): (r: Poly)
    requires |q| <= |p|
    ensures |r| == |p|
  {
    p[..|p| - |q|] + Sum(p[|p| - |q|..], q)
  }

  lemma EvalSumLow(p: Poly, q: Poly, x: Element)
    requires |q| <= |p|
    ensures Eval(SumLow(p, q), x) == Add(Eval(p, x), Eval(q, x))
  {
    hide Add, Mul, Eval, Sum, Power;
    var k := |p| - |q|;
    var hi, lo := p[..k], p[k..];
    EvalConcat(hi, Sum(lo, q), x);
    EvalSum(lo, q, x);
    assert p == hi + lo;
    EvalConcat(hi, lo, x);
    AddLaws(Mul(Eval(hi, x), Power(x, |q|)), Eval(lo, x), Eval(q, x));
  }

  /** The product of two polynomials, without removing leading zeros. */
  function Product(q: Poly, g: Poly): (r: Poly)
    requires |g| >= 1
    ensures |r| == |q| + |g| - 1
  {
    if |q| == 0 then Zeros(|g| - 1)
    else SumLow(Product(q[..|q| - 1], g) + [0], Scale(g, q[|q| - 1]))
  }

  lemma {:induction false} EvalProduct(q: Poly, g: Poly, x: Element)
    requires |g| >= 1
    ensures Eval(Product(q, g), x) == Mul(Eval(q, x), Eval(g, x))
  {
    hide Add, Mul, Sum, SumLow, Scale;
    if |q| == 0 {
      EvalZeros(|g| - 1, x);
      MulZeroLeft(Eval(g, x));
    } else {
      var n := |q| - 1;
      var p := Product(q[..n], g);
      var e, f, v := Eval(q[..n], x), q[n], Eval(g, x);
      EvalProduct(q[..n], g, x);
      EvalSumLow(p + [0], Scale(g, f), x);
      EvalSnoc(p, 0, x);
      AddLaws(Mul(Eval(p, x), x), 0, 0);
      EvalScale(g, f, x);
      MulAddLeft(Mul(e, x), f, v);
      MulAssoc(e, v, x);
      MulComm(v, x);
      MulAssoc(e, x, v);
      MulComm(v, f);
    }
  }
}
