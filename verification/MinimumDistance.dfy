/**
The Reed-Solomon code corrects errors: two different data blocks of equal length give codewords
that differ in more than `degree` places, so up to degree / 2 wrong codewords leave only one
data block possible.
*/
module MinimumDistance {
  import opened Bits
  import opened Sets
  import opened GaloisField
  import opened FieldGenerator
  import opened Polynomials
  import opened ReedSolomon

  /** The positions of the nonzero coefficients. */
  function Support(c: Poly): (s: set<int>)
  {
    set p | 0 <= p < |c| && c[p] != 0
  }

  /** The number of positions in which two words differ. */
  function Distance(a: Poly, b: Poly): (n: nat)
    requires |a| == |b|
  {
    |DifferentAt(a, b)|
  }

  function DifferentAt(a: Poly, b: Poly): (s: set<int>)
    requires |a| == |b|
  {
    set p | 0 <= p < |a| && a[p] != b[p]
  }

  /** The field element that names a position of a word of length n: 2 to the power of x there. */
  function Locator(n: nat, p: nat): (x: Element)
    requires p < n
  {
    Power(2, n - 1 - p)
  }

  lemma LocatorsDistinct(n: nat, p: nat, q: nat)
    requires p < n <= 255 && q < n && p != q
    ensures Add(Locator(n, p), Locator(n, q)) != 0
  {
    hide Add, Power;
    if p < q {
      PowersOfTwoDistinct(n - 1 - q, n - 1 - p);
    } else {
      PowersOfTwoDistinct(n - 1 - p, n - 1 - q);
    }
    if Add(Locator(n, p), Locator(n, q)) == 0 {
      AddCancel(Locator(n, p), Locator(n, q));
    }
  }

  /** Every coefficient times the locator of its position. */
  function Spread(c: Poly): (r: Poly)
    ensures |r| == |c|
  {
    seq(|c|, p requires 0 <= p < |c| => Mul(c[p], Locator(|c|, p)))
  }

  /** Spreading a word moves its value at x to its value at 2x. */
  lemma {:induction false} EvalSpread(c: Poly, x: Element)
    ensures Eval(Spread(c), x) == Eval(c, Mul(x, 2))
  {
    hide Add, Mul;
    if |c| != 0 {
      var n := |c| - 1;
      var rest := c[..n];
      SpreadPrefix(c);
      EvalScale(Spread(rest), 2, x);
      EvalSpread(rest, x);
      var e := Eval(rest, Mul(x, 2));
      MulAssoc(e, 2, x);
      MulComm(2, x);
      MulOneRight(c[n]);
    }
  }

  lemma SpreadPrefix(c: Poly)
    requires |c| > 0
    ensures Spread(c)[..|c| - 1] == Scale(Spread(c[..|c| - 1]), 2)
  {
    hide Add, Mul;
    var n := |c| - 1;
    forall p | 0 <= p < n
      ensures Spread(c)[p] == Mul(Spread(c[..n])[p], 2)
    {
      MulAssoc(c[p], Power(2, n - 1 - p), 2);
    }
  }

  /** Multiplies every coefficient by (its locator - locator of j), which wipes out position j. */
  function Puncture(c: Poly, j: nat): (r: Poly)
    requires j < |c|
    ensures |r| == |c|
  {
    Sum(Spread(c), Scale(c, Locator(|c|, j)))
  }

  lemma PunctureSupport(c: Poly, j: nat)
    requires j < |c| <= 255
    ensures Support(Puncture(c, j)) == Support(c) - {j}
  {
    hide Add, Mul, Power;
    var n := |c|;
    forall p: nat | p < n
      ensures Puncture(c, j)[p] != 0 <==> c[p] != 0 && p != j
    {
      var x, y := Locator(n, p), Locator(n, j);
      MulAddRight(c[p], x, y);
      NoZeroDivisors(c[p], Add(x, y));
      if p == j {
        AddLaws(x, 0, 0);
      } else {
        LocatorsDistinct(n, p, j);
      }
    }
  }

  /** A word with syndromes 0, ..., d+1 zero keeps syndromes 0, ..., d zero when punctured. */
  lemma PunctureEval(c: Poly, j: nat, i: nat)
    requires j < |c|
    requires Eval(c, Power(2, i)) == 0 && Eval(c, Power(2, i + 1)) == 0
    ensures Eval(Puncture(c, j), Power(2, i)) == 0
  {
    hide Add, Mul, Eval, Spread;
    var x := Power(2, i);
    EvalSum(Spread(c), Scale(c, Locator(|c|, j)), x);
    EvalSpread(c, x);
    EvalScale(c, Locator(|c|, j), x);
    MulZeroLeft(Locator(|c|, j));
    AddLaws(0, 0, 0);
  }

  lemma {:induction false} EvalZeroWord(c: Poly, x: Element)
    requires Support(c) == {}
    ensures Eval(c, x) == 0
  {
    forall p: nat | p < |c|
      ensures c[p] == 0
    {
      assert p !in Support(c);
    }
    assert c == Zeros(|c|);
    EvalZeros(|c|, x);
  }

  /** A word with a single nonzero coefficient is nonzero at every nonzero point. */
  lemma {:induction false} EvalSingle(c: Poly, j: nat, x: Element)
    requires Support(c) == {j} && x != 0
    ensures Eval(c, x) != 0
  {
    hide Add, Mul;
    assert j in Support(c);
    var n := |c| - 1;
    var rest := c[..n];
    assert Support(rest) == Support(c) - {n} by {
      forall p: nat | p < n
        ensures p in Support(rest) <==> p in Support(c)
      {
      }
    }
    if j == n {
      EvalZeroWord(rest, x);
      MulZeroLeft(x);
      AddLaws(c[n], 0, 0);
    } else {
      assert n !in Support(c);
      EvalSingle(rest, j, x);
      NoZeroDivisors(Eval(rest, x), x);
      AddLaws(Mul(Eval(rest, x), x), 0, 0);
    }
  }

  /** A nonzero word of at most 255 symbols that vanishes at 2^0, ..., 2^(d-1) has more than d nonzero symbols. */
  lemma {:induction false} MinimumWeight(c: Poly, d: nat)
    requires |c| <= 255 && Support(c) != {}
    requires forall i :: 0 <= i < d ==> Eval(c, Power(2, i)) == 0
    ensures |Support(c)| > d
    decreases d
  {
    hide Eval, Power, Puncture;
    if d > 0 {
      var j :| j in Support(c);
      var c' := Puncture(c, j);
      PunctureSupport(c, j);
      if Support(c') == {} {
        assert Support(c) == {j};
        PowerOfTwoNonzero(0);
        EvalSingle(c, j, Power(2, 0));
        assert false;
      } else {
        forall i | 0 <= i < d - 1
          ensures Eval(c', Power(2, i)) == 0
        {
          PunctureEval(c, j, i);
        }
        MinimumWeight(c', d - 1);
        assert |Support(c) - {j}| == |Support(c)| - 1;
      }
    }
  }

  lemma SupportOfSum(a: Poly, b: Poly)
    requires |a| == |b|
    ensures Support(Sum(a, b)) == DifferentAt(a, b)
  {
    hide Add;
    forall p: nat | p < |a|
      ensures Add(a[p], b[p]) != 0 <==> a[p] != b[p]
    {
      AddLaws(a[p], 0, 0);
      if Add(a[p], b[p]) == 0 {
        AddCancel(a[p], b[p]);
      }
    }
  }

  /** Two words of at most 255 symbols with the same syndromes are equal or differ in more than d places. */
  lemma SameSyndromes(a: Poly, b: Poly, d: nat)
    requires |a| == |b| <= 255 && a != b
    requires forall i :: 0 <= i < d ==> Eval(a, Power(2, i)) == Eval(b, Power(2, i))
    ensures Distance(a, b) > d
  {
    hide Eval, Power, Add;
    SupportOfSum(a, b);
    var p :| 0 <= p < |a| && a[p] != b[p];
    assert p in DifferentAt(a, b);
    forall i | 0 <= i < d
      ensures Eval(Sum(a, b), Power(2, i)) == 0
    {
      EvalSum(a, b, Power(2, i));
      AddLaws(Eval(a, Power(2, i)), 0, 0);
    }
    MinimumWeight(Sum(a, b), d);
  }

  /** The minimum distance of the code: different data blocks give codewords more than degree apart. */
  lemma CodewordDistance(a: Poly, b: Poly, degree: nat)
    requires |a| == |b| && |a| + degree <= 255 && degree >= 1 && a != b
    ensures Distance(Codeword(a, degree), Codeword(b, degree)) > degree
  {
    hide Eval, Power, Remainder;
    var c, d := Codeword(a, degree), Codeword(b, degree);
    assert c[..|a|] == a && d[..|b|] == b;
    forall i | 0 <= i < degree
      ensures Eval(c, Power(2, i)) == Eval(d, Power(2, i))
    {
      CodewordRoots(a, degree, i);
      CodewordRoots(b, degree, i);
    }
    SameSyndromes(c, d, degree);
  }

  lemma DistanceTriangle(a: Poly, b: Poly, c: Poly)
    requires |a| == |b| == |c|
    ensures Distance(a, c) <= Distance(a, b) + Distance(b, c)
  {
    var s, t := DifferentAt(a, b), DifferentAt(b, c);
    assert DifferentAt(a, c) <= s + t;
    SubsetSize(DifferentAt(a, c), s + t);
    assert |s + t| == |s| + |t| - |s * t|;
  }

  /** Error correction: with at most degree / 2 wrong symbols the data block is still determined. */
  lemma UniqueCorrection(received: Poly, a: Poly, b: Poly, degree: nat)
    requires |a| == |b| && |a| + degree <= 255 && degree >= 1
    requires |received| == |a| + degree
    requires 2 * Distance(Codeword(a, degree), received) <= degree
    requires 2 * Distance(Codeword(b, degree), received) <= degree
    ensures a == b
  {
    hide Distance, Codeword;
    if a != b {
      CodewordDistance(a, b, degree);
      DistanceTriangle(Codeword(a, degree), received, Codeword(b, degree));
      DistanceSymmetric(received, Codeword(b, degree));
    }
  }

  lemma DistanceSymmetric(a: Poly, b: Poly)
    requires |a| == |b|
    ensures Distance(a, b) == Distance(b, a)
  {
    assert DifferentAt(a, b) == DifferentAt(b, a);
  }

  ghost predicate ZeroSyndromes(w: Poly, d: nat)
  {
    forall i :: 0 <= i < d ==> Eval(w, Power(2, i)) == 0
  }

  /** Error detection: a word is a codeword exactly when its syndromes are all zero. */
  lemma SyndromesDetectErrors(w: Poly, degree: nat)
    requires 1 <= degree <= |w| <= 255
    ensures w == Codeword(w[..|w| - degree], degree) <==> ZeroSyndromes(w, degree)
  {
    hide Eval, Power, Codeword;
    var k := |w| - degree;
    var c := Codeword(w[..k], degree);
    assert ZeroSyndromes(c, degree) by {
      forall i | 0 <= i < degree
        ensures Eval(c, Power(2, i)) == 0
      {
        CodewordRoots(w[..k], degree, i);
      }
    }
    if w != c && ZeroSyndromes(w, degree) {
      SameSyndromes(w, c, degree);
      CodewordPrefix(w[..k], degree);
      forall p | p in DifferentAt(w, c)
        ensures p in Range(k, |w|)
      {
      }
      SubsetSize(DifferentAt(w, c), Range(k, |w|));
    }
  }

  lemma CodewordPrefix(data: Poly, degree: nat)
    requires degree >= 1
    ensures forall p :: 0 <= p < |data| ==> Codeword(data, degree)[p] == data[p]
  {
  }
}
