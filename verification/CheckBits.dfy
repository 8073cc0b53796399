/**
Format and version information: a few data bits protected by BCH check bits (annexes C and D of
ISO/IEC 18004:2015).
*/
module CheckBits {
  import opened Bits
  import opened BitStrings
  import opened Tables

  /** One step of the check bit computation: multiply by x and reduce by the generator. */
  function CheckStep(rem: nat, k: nat, gen: nat): (r: nat)
    requires k >= 1
  {
    Xor(2 * rem, Shr(rem, k - 1) * gen)
  }

  /** The register after n steps. */
  function CheckRegister(data: nat, k: nat, gen: nat, n: nat): (r: nat)
    requires k >= 1
  {
    if n == 0 then data else CheckStep(CheckRegister(data, k, gen, n - 1), k, gen)
  }

  lemma CheckStepBound(rem: nat, k: nat, gen: nat)
    requires k >= 1 && rem < Pow2(k) <= gen < Pow2(k + 1)
    ensures CheckStep(rem, k, gen) < Pow2(k)
  {
    hide Xor, Shr;
    ShrTop(rem, k - 1);
    if rem < Pow2(k - 1) {
      XorZero(2 * rem);
    } else {
      var r, g := 2 * rem - Pow2(k), gen - Pow2(k);
      XorTopBit(r, g, k);
      XorBound(r, g, k);
    }
  }

  /** The register never grows beyond k bits. */
  lemma {:induction false} CheckRegisterBound(data: nat, k: nat, gen: nat, n: nat)
    requires k >= 1 && data < Pow2(k) <= gen < Pow2(k + 1)
    ensures CheckRegister(data, k, gen, n) < Pow2(k)
  {
    hide CheckStep;
    if n != 0 {
      CheckRegisterBound(data, k, gen, n - 1);
      CheckStepBound(CheckRegister(data, k, gen, n - 1), k, gen);
    }
  }

  /** The product of two binary polynomials. */
  function CarrylessProduct(q: nat, g: nat): (r: nat)
    decreases q
  {
    if q == 0 then 0 else Xor(2 * CarrylessProduct(q / 2, g), if Odd(q) then g else 0)
  }

  /** The quotient bits produced along with the register. */
  function CheckQuotient(data: nat, k: nat, gen: nat, n: nat): (q: nat)
    requires k >= 1
  {
    if n == 0 then 0
    else Join(CheckQuotient(data, k, gen, n - 1), Shr(CheckRegister(data, k, gen, n - 1), k - 1) == 1)
  }

  lemma ProductJoin(q: nat, b: bool, g: nat)
    ensures CarrylessProduct(Join(q, b), g) == Xor(2 * CarrylessProduct(q, g), if b then g else 0)
  {
    JoinSplit(q, b);
    XorZero(0);
  }

  lemma CheckStepCases(rem: nat, k: nat, gen: nat)
    requires k >= 1 && rem < Pow2(k)
    ensures CheckStep(rem, k, gen) == Xor(2 * rem, if Shr(rem, k - 1) == 1 then gen else 0)
  {
    hide Xor, Shr;
    ShrTop(rem, k - 1);
  }

  lemma ShiftOnce(data: nat, n: nat)
    ensures data * Pow2(n + 1) == 2 * (data * Pow2(n))
  {
  }

  /** The data shifted by n places and the register differ by a multiple of the generator polynomial. */
  lemma {:induction false} CheckDivision(data: nat, k: nat, gen: nat, n: nat)
    requires k >= 1 && data < Pow2(k) <= gen < Pow2(k + 1)
    ensures data * Pow2(n) == Xor(CarrylessProduct(CheckQuotient(data, k, gen, n), gen), CheckRegister(data, k, gen, n))
  {
    hide Xor, Shr, CarrylessProduct, CheckStep, Join;
    if n == 0 {
      ProductZero(gen);
      XorZero(data);
    } else {
      var rem, q := CheckRegister(data, k, gen, n - 1), CheckQuotient(data, k, gen, n - 1);
      var t := if Shr(rem, k - 1) == 1 then gen else 0;
      var p := CarrylessProduct(q, gen);
      CheckDivision(data, k, gen, n - 1);
      CheckRegisterBound(data, k, gen, n - 1);
      CheckStepCases(rem, k, gen);
      ProductJoin(q, Shr(rem, k - 1) == 1, gen);
      XorSwap(2 * p, t, 2 * rem, t);
      XorSelf(t);
      XorDouble(p, rem);
      XorZero(2 * Xor(p, rem));
      ShiftOnce(data, n - 1);
    }
  }

  lemma ProductZero(g: nat)
    ensures CarrylessProduct(0, g) == 0
  {
  }

  //////////////////////////////////////////////////////////////////////////////
  // Format information
  //////////////////////////////////////////////////////////////////////////////

  const FORMAT_GENERATOR := 0x537
  const FORMAT_MASK := 0x5412

  function FormatBits(ecl: Ecc): (r: nat)
    ensures r < 4
  {
    match ecl
    case Low => 1
    case Medium => 0
    case Quartile => 3
    case High => 2
  }

  function FormatData(ecl: Ecc, mask: nat): (data: nat)
  {
    8 * FormatBits(ecl) + mask
  }

  /** The 15 format bits of a symbol. */
  function FormatWord(ecl: Ecc, mask: nat): (word: nat)
  {
    var data := FormatData(ecl, mask);
    Xor(data * 1024 + CheckRegister(data, 10, FORMAT_GENERATOR, 10), FORMAT_MASK)
  }

  lemma FormatConstants()
    ensures Pow2(10) == 1024 && Pow2(11) == 2048 && Pow2(5) == 32 && Pow2(15) == 32768 && Pow2(3) == 8
  {
    assert Pow2(5) == 32;
    assert Pow2(10) == 32 * Pow2(5);
    assert Pow2(15) == 32 * Pow2(10);
  }

  lemma FormatWordBound(ecl: Ecc, mask: nat)
    requires mask < 8
    ensures FormatWord(ecl, mask) < 32768
  {
    hide Xor, CheckRegister;
    FormatConstants();
    CheckRegisterBound(FormatData(ecl, mask), 10, FORMAT_GENERATOR, 10);
    XorBound(FormatData(ecl, mask) * 1024 + CheckRegister(FormatData(ecl, mask), 10, FORMAT_GENERATOR, 10), FORMAT_MASK, 15);
  }

  /** What a reader makes of the format bits: the level and the mask, unless the data bits are damaged. */
  function ReadFormatWord(word: nat): (r: (Ecc, nat))
  {
    var data := Xor(word, FORMAT_MASK) / 1024;
    var level := data / 8 % 4;
    (if level == 1 then Low else if level == 0 then Medium else if level == 3 then Quartile else High, data % 8)
  }

  lemma UnmaskFormat(ecl: Ecc, mask: nat)
    requires mask < 8
    ensures Xor(FormatWord(ecl, mask), FORMAT_MASK) / 1024 == FormatData(ecl, mask)
  {
    hide Xor, CheckRegister;
    FormatConstants();
    var data := FormatData(ecl, mask);
    var rem := CheckRegister(data, 10, FORMAT_GENERATOR, 10);
    CheckRegisterBound(data, 10, FORMAT_GENERATOR, 10);
    XorAssoc(data * 1024 + rem, FORMAT_MASK, FORMAT_MASK);
    XorSelf(FORMAT_MASK);
    XorZero(data * 1024 + rem);
  }

  lemma FormatWordInverts(ecl: Ecc, mask: nat)
    requires mask < 8
    ensures ReadFormatWord(FormatWord(ecl, mask)) == (ecl, mask)
  {
    hide Xor, FormatWord;
    UnmaskFormat(ecl, mask);
  }

  /** Data followed by its check bits is a multiple of the generator polynomial. */
  lemma CheckedWord(data: nat, k: nat, gen: nat)
    requires k >= 1 && data < Pow2(k) <= gen < Pow2(k + 1)
    ensures exists q :: data * Pow2(k) + CheckRegister(data, k, gen, k) == CarrylessProduct(q, gen)
  {
    hide Xor, CheckRegister, CarrylessProduct, CheckQuotient, Pow2;
    var reg, q := CheckRegister(data, k, gen, k), CheckQuotient(data, k, gen, k);
    CheckRegisterBound(data, k, gen, k);
    CheckDivision(data, k, gen, k);
    XorBelow(data, reg, k);
    XorAssoc(CarrylessProduct(q, gen), reg, reg);
    XorSelf(reg);
    XorZero(CarrylessProduct(q, gen));
  }

  /**
  The format word with its mask 0x5412 taken off: the two bits of the level and the three of the mask
  number, completed to a multiple of x^10 + x^8 + x^5 + x^4 + x^2 + x + 1.
  */
  lemma FormatIsCodeword(ecl: Ecc, mask: nat)
    requires mask < 8
    ensures var word := Xor(FormatWord(ecl, mask), 0x5412);
            && word / 1024 == (match ecl case Low => 8 case Medium => 0 case Quartile => 24 case High => 16) + mask
            && exists q :: word == CarrylessProduct(q, 0x537)
  {
    hide Xor, CheckRegister, CarrylessProduct;
    var data := FormatData(ecl, mask);
    var rem := CheckRegister(data, 10, FORMAT_GENERATOR, 10);
    UnmaskFormat(ecl, mask);
    FormatConstants();
    CheckedWord(data, 10, 0x537);
    XorAssoc(data * 1024 + rem, FORMAT_MASK, FORMAT_MASK);
    XorSelf(FORMAT_MASK);
    XorZero(data * 1024 + rem);
  }

  /** Computes the format bits; the result fits 15 bits. */
  method ComputeFormatBits(ecl: Ecc, msk: nat) returns (bits: nat)
    requires msk < 8
    ensures bits == FormatWord(ecl, msk) && bits < 32768
  {
    hide Xor, Or, Shr;
    FormatConstants();
    OrBelow(FormatBits(ecl), msk, 3);
    var data := Or(FormatBits(ecl) * 8, msk);
    var rem := data;
    for i := 0 to 10
      invariant rem == CheckRegister(data, 10, FORMAT_GENERATOR, i)
    {
      rem := Xor(2 * rem, Shr(rem, 9) * 0x537);
    }
    CheckRegisterBound(data, 10, FORMAT_GENERATOR, 10);
    OrBelow(data, rem, 10);
    bits := Xor(Or(data * 1024, rem), 0x5412);
    FormatWordBound(ecl, msk);
    assert Shr(bits, 15) == 0 by { ShrZero(bits, 15); }
  }

  //////////////////////////////////////////////////////////////////////////////
  // Version information
  //////////////////////////////////////////////////////////////////////////////

  const VERSION_GENERATOR := 0x1F25

  /** The 18 version bits of a symbol. */
  function VersionWord(ver: nat): (word: nat)
  {
    ver * 4096 + CheckRegister(ver, 12, VERSION_GENERATOR, 12)
  }

  lemma VersionConstants()
    ensures Pow2(12) == 4096 && Pow2(13) == 8192 && Pow2(18) == 262144
  {
    FormatConstants();
    assert Pow2(12) == 4 * Pow2(10);
    assert Pow2(18) == 32 * Pow2(13);
  }

  /** The version bits fit 18 bits and begin with the version number. */
  lemma VersionWordInverts(ver: nat)
    requires ver <= 40
    ensures VersionWord(ver) < 262144 && VersionWord(ver) / 4096 == ver
  {
    hide CheckRegister;
    VersionConstants();
    CheckRegisterBound(ver, 12, VERSION_GENERATOR, 12);
  }

  /** The version word is the version completed to a multiple of x^12 + x^11 + x^10 + x^9 + x^8 + x^5 + x^2 + 1. */
  lemma VersionIsCodeword(ver: nat)
    requires ver <= 40
    ensures VersionWord(ver) / 4096 == ver && exists q :: VersionWord(ver) == CarrylessProduct(q, 0x1F25)
  {
    hide CheckRegister, CarrylessProduct;
    VersionConstants();
    VersionWordInverts(ver);
    CheckedWord(ver, 12, 0x1F25);
  }

  method ComputeVersionBits(ver: nat) returns (bits: nat)
    requires 7 <= ver <= 40
    ensures bits == VersionWord(ver) && bits < 262144
  {
    hide Xor, Or, Shr;
    VersionConstants();
    var rem := ver;
    for i := 0 to 12
      invariant rem == CheckRegister(ver, 12, VERSION_GENERATOR, i)
    {
      rem := Xor(2 * rem, Shr(rem, 11) * 0x1F25);
    }
    CheckRegisterBound(ver, 12, VERSION_GENERATOR, 12);
    OrBelow(ver, rem, 12);
    bits := Or(ver * 4096, rem);
    VersionWordInverts(ver);
    assert Shr(bits, 18) == 0 by { ShrZero(bits, 18); }
  }
}
