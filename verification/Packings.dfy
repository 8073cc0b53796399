/** Packing groups of digits in some base into bit fields, as the two text modes do. */
module Packings {
  import opened Arithmetic
  import opened Bits
  import opened BitStrings

  /** The number written by digits in a base, most significant first. */
  function DigitsValue(ds: seq<nat>, base: nat): (v: nat)
  {
    if |ds| == 0 then 0 else DigitsValue(ds[..|ds| - 1], base) * base + ds[|ds| - 1]
  }

  /** The last n digits of a number in a base. */
  function DigitsOf(v: nat, base: nat, n: nat): (ds: seq<nat>)
    requires base >= 1
    ensures |ds| == n
  {
    if n == 0 then [] else DigitsOf(v / base, base, n - 1) + [v % base]
  }

  lemma {:induction false} DigitsOfValue(ds: seq<nat>, base: nat)
    requires base >= 1 && forall i :: 0 <= i < |ds| ==> ds[i] < base
    ensures DigitsOf(DigitsValue(ds, base), base, |ds|) == ds
  {
    if |ds| != 0 {
      var n := |ds| - 1;
      DigitsOfValue(ds[..n], base);
      DivideDigit(DigitsValue(ds[..n], base), base, ds[n]);
    }
  }

  /** A number of digits that makes up whole groups. */
  ghost predicate WholeGroups(n: nat, group: nat)
    requires group >= 1
  {
    n == 0 || (n >= group && WholeGroups(n - group, group))
  }

  /** How a text mode packs its characters: full groups of `group` digits, and a shorter last group. */
  datatype Packing = Packing(base: nat, group: nat, widths: seq<nat>)
  {
    /** Every group of digits fits the width reserved for it. */
    ghost predicate Valid()
    {
      && base >= 1 && group >= 1 && |widths| == group + 1 && widths[0] == 0
      && (forall n :: 1 <= n <= group ==> 1 <= widths[n] <= 31)
      && (forall ds: seq<nat> :: 1 <= |ds| <= group && (forall i :: 0 <= i < |ds| ==> ds[i] < base) ==>
            DigitsValue(ds, base) < Pow2(widths[|ds|]))
    }

    /** The bits of a sequence of digits. */
    function Encode(ds: seq<nat>): (bits: seq<bool>)
      requires |widths| == group + 1 && group >= 1
    {
      if |ds| <= group then BitsOf(DigitsValue(ds, base), widths[|ds|])
      else BitsOf(DigitsValue(ds[..group], base), widths[group]) + Encode(ds[group..])
    }

    /** Whole groups can be encoded ahead of the rest. */
    lemma {:induction false} EncodeAppend(a: seq<nat>, b: seq<nat>)
      requires |widths| == group + 1 && group >= 1 && widths[0] == 0 && WholeGroups(|a|, group)
      ensures Encode(a + b) == Encode(a) + Encode(b)
      decreases |a|
    {
      hide DigitsValue, BitsOf;
      if |a| == 0 {
        assert a + b == b;
      } else if |b| == 0 {
        assert a + b == a;
      } else {
        assert (a + b)[..group] == a[..group];
        assert (a + b)[group..] == a[group..] + b;
        if |a| > group {
          EncodeAppend(a[group..], b);
        } else {
          assert a[group..] + b == b;
          assert a[..group] == a;
        }
      }
    }

    function BitLength(n: nat): (len: nat)
      requires |widths| == group + 1 && group >= 1
    {
      if n <= group then widths[n] else widths[group] + BitLength(n - group)
    }

    /** Reads n digits back. */
    function Decode(bits: seq<bool>, n: nat): (ds: seq<nat>)
      requires |widths| == group + 1 && group >= 1 && base >= 1 && |bits| == BitLength(n)
    {
      if n <= group then DigitsOf(ValueOf(bits), base, n)
      else DigitsOf(ValueOf(bits[..widths[group]]), base, group) + Decode(bits[widths[group]..], n - group)
    }

    lemma {:induction false} EncodeLength(ds: seq<nat>)
      requires |widths| == group + 1 && group >= 1
      ensures |Encode(ds)| == BitLength(|ds|)
      decreases |ds|
    {
      if |ds| > group {
        EncodeLength(ds[group..]);
      }
    }

    /** Decoding with the digit count returns the digits, for any number of them. */
    lemma {:induction false} DecodeInverts(ds: seq<nat>)
      requires Valid() && forall i :: 0 <= i < |ds| ==> ds[i] < base
      ensures |Encode(ds)| == BitLength(|ds|) && Decode(Encode(ds), |ds|) == ds
      decreases |ds|
    {
      hide DigitsValue, DigitsOf, ValueOf, BitsOf;
      EncodeLength(ds);
      if |ds| == 0 {
        DigitsOfNone(ValueOf(Encode(ds)), base);
      } else if |ds| <= group {
        ValueOfBitsOf(DigitsValue(ds, base), widths[|ds|]);
        DigitsOfValue(ds, base);
      } else {
        var head := ds[..group];
        ValueOfBitsOf(DigitsValue(head, base), widths[group]);
        DigitsOfValue(head, base);
        DecodeInverts(ds[group..]);
        assert Encode(ds)[..widths[group]] == BitsOf(DigitsValue(head, base), widths[group]);
        assert Encode(ds)[widths[group]..] == Encode(ds[group..]);
      }
    }
  }

  lemma {:induction false} FieldFitsWord(w: nat)
    requires w <= 31
    ensures Pow2(w) <= 0x8000_0000
    decreases 31 - w
  {
    if w < 31 {
      FieldFitsWord(w + 1);
    } else {
      assert Pow2(8) == 256 && Pow2(16) == 256 * Pow2(8) by { Pow2Sum(8, 8); }
      assert Pow2(31) == 128 * Pow2(24) && Pow2(24) == Pow2(16) * Pow2(8) by { Pow2Sum(16, 8); Pow2Sum(24, 7); }
    }
  }

  lemma {:induction false} Pow2Sum(m: nat, n: nat)
    ensures Pow2(m + n) == Pow2(m) * Pow2(n)
  {
    if n != 0 {
      Pow2Sum(m, n - 1);
    }
  }

  lemma DigitsOfNone(v: nat, base: nat)
    requires base >= 1
    ensures DigitsOf(v, base, 0) == []
  {
  }

  lemma ShortDigits(ds: seq<nat>, base: nat)
    requires 1 <= |ds| <= 3
    ensures |ds| == 1 ==> DigitsValue(ds, base) == ds[0]
    ensures |ds| == 2 ==> DigitsValue(ds, base) == ds[0] * base + ds[1]
    ensures |ds| == 3 ==> DigitsValue(ds, base) == (ds[0] * base + ds[1]) * base + ds[2]
  {
    assert DigitsValue([], base) == 0;
    assert ds[..1] == [ds[0]] && ds[..1][..0] == [];
    if |ds| >= 2 {
      assert ds[..2][..1] == ds[..1];
    }
    if |ds| == 3 {
      assert ds[..3] == ds;
    }
  }

  lemma EncodeNothing(p: Packing)
    requires |p.widths| == p.group + 1 && p.group >= 1 && p.widths[0] == 0
    ensures p.Encode([]) == []
  {
  }

  lemma DigitsValueNone(base: nat)
    ensures DigitsValue([], base) == 0
  {
  }

  lemma DigitsValueSnoc(ds: seq<nat>, d: nat, base: nat)
    ensures DigitsValue(ds + [d], base) == DigitsValue(ds, base) * base + d
  {
    assert (ds + [d])[..|ds|] == ds;
  }

  /** After whole groups comes one more group, whose value fits its field. */
  lemma AppendGroup(p: Packing, done: seq<nat>, ds: seq<nat>)
    requires p.Valid() && WholeGroups(|done|, p.group) && 1 <= |ds| <= p.group
    requires forall i :: 0 <= i < |ds| ==> ds[i] < p.base
    ensures p.Encode(done + ds) == p.Encode(done) + BitsOf(DigitsValue(ds, p.base), p.widths[|ds|])
    ensures DigitsValue(ds, p.base) < Pow2(p.widths[|ds|]) && p.widths[|ds|] <= 31
  {
    p.EncodeAppend(done, ds);
  }

  /** The state of an encoding loop that has read some digits: whole groups written, the rest accumulated. */
  ghost predicate Accumulated(p: Packing, ds: seq<nat>, bits: seq<bool>, accumData: nat, accumCount: nat)
    requires p.Valid()
  {
    && accumCount < p.group && accumCount <= |ds|
    && (forall i :: 0 <= i < |ds| ==> ds[i] < p.base)
    && var start := |ds| - accumCount;
       && WholeGroups(start, p.group)
       && bits == p.Encode(ds[..start])
       && accumData == DigitsValue(ds[start..], p.base)
  }

  lemma AccumulateNothing(p: Packing)
    requires p.Valid()
    ensures Accumulated(p, [], [], 0, 0)
  {
    EncodeNothing(p);
    DigitsValueNone(p.base);
  }

  /** Reading one more digit either lengthens the accumulated group or completes it. */
  lemma Accumulate(p: Packing, ds: seq<nat>, d: nat, bits: seq<bool>, accumData: nat, accumCount: nat)
    requires p.Valid() && d < p.base && Accumulated(p, ds, bits, accumData, accumCount)
    ensures accumCount + 1 < p.group ==> Accumulated(p, ds + [d], bits, accumData * p.base + d, accumCount + 1)
    ensures accumCount + 1 == p.group ==>
              && accumData * p.base + d < Pow2(p.widths[p.group])
              && Accumulated(p, ds + [d], bits + BitsOf(accumData * p.base + d, p.widths[p.group]), 0, 0)
  {
    hide Packing.Encode, Packing.Valid, DigitsValue, BitsOf;
    ValidParts(p);
    var start, more := |ds| - accumCount, ds + [d];
    DigitsValueSnoc(ds[start..], d, p.base);
    assert more[..start] == ds[..start] && more[start..] == ds[start..] + [d];
    if accumCount + 1 == p.group {
      AppendGroup(p, more[..start], more[start..]);
      assert more[..start] + more[start..] == more == more[..|more|];
      assert more[|more|..] == [];
      DigitsValueNone(p.base);
      assert WholeGroups(start + p.group, p.group);
    }
  }

  lemma ValidParts(p: Packing)
    requires p.Valid()
    ensures p.group >= 1 && p.base >= 1 && |p.widths| == p.group + 1 && p.widths[0] == 0
  {
  }

  lemma AccumulateEnd(p: Packing, ds: seq<nat>, bits: seq<bool>, accumData: nat, accumCount: nat)
    requires p.Valid() && Accumulated(p, ds, bits, accumData, accumCount)
    ensures accumCount == 0 ==> p.Encode(ds) == bits
    ensures accumCount > 0 ==>
              && accumCount < p.group
              && accumData < Pow2(p.widths[accumCount])
              && p.Encode(ds) == bits + BitsOf(accumData, p.widths[accumCount])
  {
    hide Packing.Encode, Packing.Valid, DigitsValue, BitsOf;
    ValidParts(p);
    var start := |ds| - accumCount;
    assert ds == ds[..start] + ds[start..];
    if accumCount > 0 {
      AppendGroup(p, ds[..start], ds[start..]);
    } else {
      assert ds[..start] == ds;
    }
  }
}
