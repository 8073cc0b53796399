/** Small facts about integers. */
module Arithmetic {

  function Abs(t: int): (r: nat)
  {
    if t < 0 then -t else t
  }

  function Min(a: int, b: int): (r: int)
  {
    if a <= b then a else b
  }

  lemma MulMonotone(a: int, x: int, y: int)
    requires a >= 0 && x <= y
    ensures a * x <= a * y
  {
  }

  lemma MulCancel(a: int, x: int, y: int)
    requires a >= 1 && a * x < a * y
    ensures x < y
  {
  }

  lemma SmallMultiple(d: int, k: int)
    requires -d < d * k < d
    ensures k == 0
  {
  }

  lemma DivideDigit(q: nat, base: nat, r: nat)
    requires r < base
    ensures (q * base + r) / base == q && (q * base + r) % base == r
  {
    var y := q * base + r;
    assert base * (y / base) + y % base == y;
    assert base * (y / base - q) == r - y % base;
    SmallMultiple(base, y / base - q);
  }
}
