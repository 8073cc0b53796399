/** Reed-Solomon error correction codewords (section 7.5 of ISO/IEC 18004:2015). */
module ReedSolomon {
  import opened Bits
  import opened Results
  import opened GaloisField
  import opened Polynomials
  import opened FieldGenerator

  //////////////////////////////////////////////////////////////////////////////
  // Field multiplication
  //////////////////////////////////////////////////////////////////////////////

  /** Russian peasant multiplication computes the field product; the accumulator never leaves 8 bits. */
  method ReedSolomonMultiply(x: Byte, y: Byte) returns (r: Byte)
    ensures r == Mul(x, y)
  {
    hide Xor, Mul, Times2;
    var z: nat := 0;
    ShrZero(y, 8);
    assert Pow2(8) == 256;
    MulZeroRight(x);
    var i := 7;
    while i >= 0
      invariant -1 <= i <= 7
      invariant z < 256
      invariant z == Mul(x, Shr(y, i + 1))
    {
      ghost var high := Shr(y, i);
      Times2Shift(z);
      MulUnfold(x, high);
      XorZero(Times2(z));
      z := Xor(2 * z, z / 128 * 0x11D);
      z := Xor(z, Shr(y, i) % 2 * x);
      i := i - 1;
    }
    assert z / 256 == 0;
    r := z;
  }

  //////////////////////////////////////////////////////////////////////////////
  // The generator polynomial
  //////////////////////////////////////////////////////////////////////////////

  /** The product (x - 2^0)(x - 2^1)...(x - 2^(n-1)), with its leading coefficient. */
  function Generator(n: nat): (g: Poly)
    ensures |g| == n + 1
  {
    if n == 0 then [1] else TimesLinear(Generator(n - 1), Power(2, n - 1))
  }

  lemma {:induction false} GeneratorMonic(n: nat)
    ensures Generator(n)[0] == 1
  {
    hide Add, Mul, Power;
    if n != 0 {
      GeneratorMonic(n - 1);
      AddLaws(1, 0, 0);
    }
  }

  /** The roots of the generator polynomial are exactly 2^0, ..., 2^(n-1). */
  lemma {:induction false} GeneratorRoots(n: nat, x: Element)
    ensures Eval(Generator(n), x) == 0 <==> exists i :: 0 <= i < n && x == Power(2, i)
  {
    hide Add, Mul, Power, Eval, TimesLinear;
    if n == 0 {
      EvalConstant(1, x);
    } else {
      var g, root := Generator(n - 1), Power(2, n - 1);
      GeneratorRoots(n - 1, x);
      EvalTimesLinear(g, root, x);
      NoZeroDivisors(Eval(g, x), Add(x, root));
      AddLaws(x, 0, 0);
      if Add(x, root) == 0 {
        AddCancel(x, root);
      }
      if i :| 0 <= i < n - 1 && x == Power(2, i) {
        assert 0 <= i < n && x == Power(2, i);
      } else if x == root {
        assert 0 <= n - 1 < n && x == Power(2, n - 1);
      }
    }
  }

  lemma EvalConstant(c: Element, x: Element)
    ensures Eval([c], x) == c
  {
    hide Add, Mul;
    assert [c][..0] == [];
    MulZeroLeft(x);
    AddLaws(c, 0, 0);
  }

  /** The divisor of a given degree: the generator polynomial without its leading one. */
  function Divisor(degree: nat): (r: Poly)
    ensures |r| == degree
  {
    Generator(degree)[1..]
  }

  lemma DivisorIsGenerator(degree: nat)
    ensures [1] + Divisor(degree) == Generator(degree)
  {
    GeneratorMonic(degree);
  }

  /** What the low-order slots of a buffer of the given size hold after n rounds. */
  function Slots(size: nat, n: nat): (r: Poly)
    requires n <= size
    ensures |r| == size
  {
    (Zeros(size) + Generator(n))[n + 1..]
  }

  lemma SlotAt(size: nat, n: nat, k: nat)
    requires n <= size && k < size
    ensures Slots(size, n)[k] == if n + 1 + k < size then 0 else Generator(n)[n + 1 + k - size]
  {
    hide Generator;
  }

  lemma TimesLinearAt(p: Poly, root: Element, t: nat)
    requires t <= |p|
    ensures TimesLinear(p, root)[t] == Add(if t < |p| then p[t] else 0, if t == 0 then 0 else Mul(p[t - 1], root))
  {
    hide Add, Mul, Sum, Scale;
  }

  /** A slot after a round, from itself and the next slot before the round. */
  lemma SlotNext(size: nat, n: nat, k: nat)
    requires n < size && k < size
    ensures Slots(size, n + 1)[k]
         == Add(if k + 1 < size then Slots(size, n)[k + 1] else 0, Mul(Slots(size, n)[k], Power(2, n)))
  {
    hide Add, Mul, Power, Slots, TimesLinear;
    SlotAt(size, n + 1, k);
    SlotAt(size, n, k);
    if k + 1 < size {
      SlotAt(size, n, k + 1);
    }
    MulZeroLeft(Power(2, n));
    AddLaws(0, 0, 0);
    if n + 2 + k >= size {
      TimesLinearAt(Generator(n), Power(2, n), n + 2 + k - size);
    }
  }

  lemma SlotsStep(size: nat, n: nat)
    requires n < size
    ensures Slots(size, n + 1) == Sum(Slots(size, n)[1..] + [0], Scale(Slots(size, n), Power(2, n)))
  {
    hide Add, Mul, Power, Slots, Sum, Scale;
    forall k | 0 <= k < size
      ensures Slots(size, n + 1)[k] == Sum(Slots(size, n)[1..] + [0], Scale(Slots(size, n), Power(2, n)))[k]
    {
      SlotNext(size, n, k);
    }
  }

  lemma SlotsEnds(size: nat)
    ensures size >= 1 ==> Slots(size, 0) == Zeros(size - 1) + [1]
    ensures Slots(size, size) == Divisor(size)
  {
  }

  /** One round: the buffer times x - root, dropping what leaves the buffer at the top. */
  method MultiplyByLinear(result: array<Byte>, root: Byte)
    requires result.Length >= 1
    modifies result
    ensures result[..] == Sum(old(result[..])[1..] + [0], Scale(old(result[..]), root))
  {
    hide Add, Mul;
    ghost var before := result[..];
    ghost var shifted := before[1..] + [0];
    for j := 0 to result.Length
      invariant forall k :: 0 <= k < j ==> result[k] == Add(shifted[k], Mul(before[k], root))
      invariant forall k :: j <= k < result.Length ==> result[k] == before[k]
    {
      var product := ReedSolomonMultiply(result[j], root);
      result[j] := product;
      AddLaws(product, shifted[j], 0);
      if j + 1 < result.Length {
        result[j] := Add(result[j], result[j + 1]);
      }
    }
  }

  /** The in-place loop builds the generator polynomial one linear factor a round. */
  method ReedSolomonComputeDivisor(degree: int) returns (r: Result<seq<Byte>>)
    ensures degree < 1 || degree > 255 ==> r == Err(DomainError)
    ensures 1 <= degree <= 255 ==> r == Ok(Divisor(degree))
  {
    hide Add, Mul, Slots, Generator, Divisor;
    if degree < 1 || degree > 255 {
      return Err(DomainError);
    }
    SlotsEnds(degree);
    var result := new Byte[degree](i => 0);
    result[result.Length - 1] := 1;
    assert result[..] == Zeros(degree - 1) + [1];

    var root: Byte := 1;
    for i := 0 to degree
      invariant root == Power(2, i)
      invariant result[..] == Slots(degree, i)
    {
      SlotsStep(degree, i);
      MultiplyByLinear(result, root);
      root := ReedSolomonMultiply(root, 2);
    }
    return Ok(result[..]);
  }

  //////////////////////////////////////////////////////////////////////////////
  // The remainder
  //////////////////////////////////////////////////////////////////////////////

  /** One step of the shift register. */
  function RegisterStep(reg: Poly, b: Element, divisor: Poly): (r: Poly)
    requires |reg| == |divisor| >= 1
    ensures |r| == |divisor|
  {
    Sum(reg[1..] + [0], Scale(divisor, Add(b, reg[0])))
  }

  /** The register after all data codewords have been fed in. */
  function Remainder(data: Poly, divisor: Poly): (r: Poly)
    requires |divisor| >= 1
    ensures |r| == |divisor|
  {
    if |data| == 0 then Zeros(|divisor|)
    else RegisterStep(Remainder(data[..|data| - 1], divisor), data[|data| - 1], divisor)
  }

  method ReedSolomonComputeRemainder(data: seq<Byte>, divisor: seq<Byte>) returns (result: seq<Byte>)
    requires |divisor| >= 1
    ensures result == Remainder(data, divisor)
  {
    result := seq(|divisor|, i => 0);
    for n := 0 to |data|
      invariant result == Remainder(data[..n], divisor)
    {
      hide Add, Mul;
      ghost var reg := result;
      var factor := Add(data[n], result[0]);
      result := result[1..];
      result := result + [0];
      ghost var shifted := result;
      for i := 0 to |result|
        invariant |result| == |divisor|
        invariant forall k :: 0 <= k < i ==> result[k] == Add(shifted[k], Mul(divisor[k], factor))
        invariant forall k :: i <= k < |result| ==> result[k] == shifted[k]
      {
        var product := ReedSolomonMultiply(divisor[i], factor);
        result := result[i := Add(result[i], product)];
      }
      assert result == RegisterStep(reg, data[n], divisor);
      assert data[..n + 1][..n] == data[..n];
    }
    assert data[..|data|] == data;
  }

  /** The factors used by the shift register, which are the coefficients of the quotient. */
  function Quotient(data: Poly, divisor: Poly): (q: Poly)
    requires |divisor| >= 1
    ensures |q| == |data|
  {
    if |data| == 0 then []
    else
      var n := |data| - 1;
      Quotient(data[..n], divisor) + [Add(data[n], Remainder(data[..n], divisor)[0])]
  }

  /** Feeding one codeword into the register extends the product by one quotient coefficient. */
  lemma DivisionStep(data: Poly, reg: Poly, q: Poly, f: Element, divisor: Poly)
    requires |divisor| >= 1 && |reg| == |divisor| && |q| == |data|
    requires data + reg == Product(q, [1] + divisor)
    ensures Product(q + [f], [1] + divisor) == data + [Add(reg[0], f)] + Sum(reg[1..] + [0], Scale(divisor, f))
  {
    hide Add, Mul, Sum, Scale;
    var g := [1] + divisor;
    assert (q + [f])[..|q|] == q;
    var p := Product(q, g) + [0];
    assert p == data + (reg + [0]);
    assert p[..|data|] == data && p[|data|..] == reg + [0];
    LeadingTerm(reg, divisor, f);
  }

  lemma LeadingTerm(reg: Poly, divisor: Poly, f: Element)
    requires |divisor| >= 1 && |reg| == |divisor|
    ensures Sum(reg + [0], Scale([1] + divisor, f)) == [Add(reg[0], f)] + Sum(reg[1..] + [0], Scale(divisor, f))
  {
    hide Add, Mul, Sum, Scale;
    MulOneLeft(f);
  }

  /**
  Polynomial division: the data followed by the register is the quotient times the divisor (with
  its leading one), so the register is data * x^d modulo the divisor, for any divisor.
  */
  lemma {:induction false} DivisionIdentity(data: Poly, divisor: Poly)
    requires |divisor| >= 1
    ensures data + Remainder(data, divisor) == Product(Quotient(data, divisor), [1] + divisor)
  {
    hide Add, Mul, Product, RegisterStep;
    if |data| == 0 {
      ProductEmpty([1] + divisor);
    } else {
      var n := |data| - 1;
      var data', b := data[..n], data[n];
      var reg, q := Remainder(data', divisor), Quotient(data', divisor);
      var f := Add(b, reg[0]);
      DivisionIdentity(data', divisor);
      DivisionStep(data', reg, q, f, divisor);
      AddLaws(b, reg[0], reg[0]);
      AddLaws(reg[0], f, 0);
      AddLaws(reg[0], 0, 0);
      AddLaws(b, 0, 0);
      RegisterStepIs(reg, b, divisor);
      assert data == data' + [b];
    }
  }

  lemma ProductEmpty(g: Poly)
    requires |g| >= 1
    ensures Product([], g) == Zeros(|g| - 1)
  {
  }

  lemma RegisterStepIs(reg: Poly, b: Element, divisor: Poly)
    requires |reg| == |divisor| >= 1
    ensures RegisterStep(reg, b, divisor) == Sum(reg[1..] + [0], Scale(divisor, Add(b, reg[0])))
  {
  }

  /** Quotient and remainder are the only ones for which the division identity holds. */
  lemma {:induction false} DivisionUnique(data: Poly, divisor: Poly, q: Poly, reg: Poly)
    requires |divisor| >= 1 && |q| == |data| && |reg| == |divisor|
    requires data + reg == Product(q, [1] + divisor)
    ensures q == Quotient(data, divisor) && reg == Remainder(data, divisor)
  {
    hide Add, Mul, Product, RegisterStep;
    if |data| == 0 {
      ProductEmpty([1] + divisor);
      assert data + reg == reg;
    } else {
      var n := |data| - 1;
      var data', b, q', f := data[..n], data[n], q[..n], q[n];
      var p := Product(q', [1] + divisor);
      var reg' := p[n..];
      assert q == q' + [f];
      DivisionStep(p[..n], reg', q', f, divisor);
      assert data + reg == p[..n] + [Add(reg'[0], f)] + Sum(reg'[1..] + [0], Scale(divisor, f));
      assert (data + reg)[..n + 1] == data && (data + reg)[n + 1..] == reg;
      DivisionUnique(data', divisor, q', reg');
      AddLaws(f, reg'[0], reg'[0]);
      AddLaws(reg'[0], f, 0);
      AddLaws(reg'[0], 0, 0);
      AddLaws(f, 0, 0);
      RegisterStepIs(reg', b, divisor);
    }
  }

  /** The remainder is linear in the data. */
  lemma {:induction false} RemainderLinear(a: Poly, b: Poly, divisor: Poly)
    requires |a| == |b| && |divisor| >= 1
    ensures Remainder(Sum(a, b), divisor) == Sum(Remainder(a, divisor), Remainder(b, divisor))
  {
    hide Add, Mul;
    AddLaws(0, 0, 0);
    if |a| != 0 {
      var n := |a| - 1;
      assert Sum(a, b)[..n] == Sum(a[..n], b[..n]);
      RemainderLinear(a[..n], b[..n], divisor);
      RegisterStepLinear(Remainder(a[..n], divisor), Remainder(b[..n], divisor), a[n], b[n], divisor);
    }
  }

  lemma RegisterStepLinear(r: Poly, s: Poly, b: Element, c: Element, divisor: Poly)
    requires |r| == |s| == |divisor| >= 1
    ensures RegisterStep(Sum(r, s), Add(b, c), divisor) == Sum(RegisterStep(r, b, divisor), RegisterStep(s, c, divisor))
  {
    hide Add, Mul;
    var f, g := Add(b, r[0]), Add(c, s[0]);
    AddSwap(b, c, r[0], s[0]);
    AddLaws(0, 0, 0);
    forall k | 0 <= k < |divisor|
      ensures RegisterStep(Sum(r, s), Add(b, c), divisor)[k]
              == Add(RegisterStep(r, b, divisor)[k], RegisterStep(s, c, divisor)[k])
    {
      MulAddRight(divisor[k], f, g);
      AddSwap((r[1..] + [0])[k], (s[1..] + [0])[k], Mul(divisor[k], f), Mul(divisor[k], g));
    }
  }

  //////////////////////////////////////////////////////////////////////////////
  // Codewords
  //////////////////////////////////////////////////////////////////////////////

  /** A data block followed by its error correction codewords. */
  function Codeword(data: Poly, degree: nat): (c: Poly)
    requires degree >= 1
    ensures |c| == |data| + degree
  {
    data + Remainder(data, Divisor(degree))
  }

  /** Every codeword polynomial is zero at 2^0, ..., 2^(degree-1). */
  lemma CodewordRoots(data: Poly, degree: nat, i: nat)
    requires i < degree
    ensures Eval(Codeword(data, degree), Power(2, i)) == 0
  {
    hide Add, Mul, Power, Eval, Product, Remainder, Quotient, Generator;
    var x, q := Power(2, i), Quotient(data, Divisor(degree));
    DivisionIdentity(data, Divisor(degree));
    DivisorIsGenerator(degree);
    EvalProduct(q, Generator(degree), x);
    GeneratorRoots(degree, x);
    MulZeroRight(Eval(q, x));
  }

  lemma CodewordLinear(a: Poly, b: Poly, degree: nat)
    requires |a| == |b| && degree >= 1
    ensures Codeword(Sum(a, b), degree) == Sum(Codeword(a, degree), Codeword(b, degree))
  {
    hide Add, Mul;
    RemainderLinear(a, b, Divisor(degree));
  }
}
