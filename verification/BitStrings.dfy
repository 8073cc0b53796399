/**
Bit strings: fixed-width big-endian fields as `BitBuffer::appendBits` writes them, and the packing
of bits into bytes.
*/
module BitStrings {
  import opened Bits
  import opened Results

  type uint32 = v: nat | v < 0x1_0000_0000

  /** The low-order len bits of a value, most significant first. */
  function BitsOf(val: nat, len: nat): (r: seq<bool>)
    ensures |r| == len
  {
    if len == 0 then [] else BitsOf(val / 2, len - 1) + [Odd(val)]
  }

  /** The number written by a bit string, most significant bit first. */
  function ValueOf(bits: seq<bool>): (v: nat)
  {
    if |bits| == 0 then 0 else Join(ValueOf(bits[..|bits| - 1]), bits[|bits| - 1])
  }

  lemma {:induction false} ValueOfBitsOf(val: nat, len: nat)
    requires val < Pow2(len)
    ensures ValueOf(BitsOf(val, len)) == val
  {
    if len != 0 {
      ValueOfBitsOf(val / 2, len - 1);
      Split(val);
      assert BitsOf(val, len)[..len - 1] == BitsOf(val / 2, len - 1);
    }
  }

  lemma {:induction false} BitsOfValueOf(bits: seq<bool>)
    ensures ValueOf(bits) < Pow2(|bits|)
    ensures BitsOf(ValueOf(bits), |bits|) == bits
  {
    if |bits| != 0 {
      var n := |bits| - 1;
      BitsOfValueOf(bits[..n]);
      JoinSplit(ValueOf(bits[..n]), bits[n]);
    }
  }

  lemma ValueOfSnoc(bits: seq<bool>, b: bool)
    ensures ValueOf(bits + [b]) == Join(ValueOf(bits), b)
  {
    assert (bits + [b])[..|bits|] == bits;
  }

  /** Bit i of a value, counted from the least significant one. */
  predicate GetBit(val: nat, i: nat)
  {
    Odd(Shr(val, i))
  }

  lemma {:induction false} BitsOfAt(val: nat, len: nat, k: nat)
    requires k < len
    ensures BitsOf(val, len)[k] == GetBit(val, len - 1 - k)
  {
    if k < len - 1 {
      BitsOfAt(val / 2, len - 1, k);
      ShrHalf(val, len - 2 - k);
    }
  }

  lemma BitsOfSnoc(val: nat, i: nat, k: nat)
    ensures BitsOf(Shr(val, i), k + 1) == BitsOf(Shr(val, i + 1), k) + [GetBit(val, i)]
  {
  }

  //////////////////////////////////////////////////////////////////////////////
  // The bit buffer
  //////////////////////////////////////////////////////////////////////////////

  class BitBuffer {
    var bits: seq<bool>

    constructor ()
      ensures bits == []
    {
      bits := [];
    }

    /** Appends the low-order bits of a value, or refuses a value that does not fit and changes nothing. */
    method AppendBits(val: uint32, len: int) returns (r: Result<()>)
      modifies this
      ensures r.Ok? <==> 0 <= len <= 31 && val < Pow2(len)
      ensures r.Ok? ==> bits == old(bits) + BitsOf(val, len)
      ensures r.Err? ==> r.error == DomainError && bits == old(bits)
    {
      hide BitsOf, GetBit, Shr;
      if len < 0 || len > 31 {
        return Err(DomainError);
      }
      ShrZero(val, len);
      if Shr(val, len) != 0 {
        return Err(DomainError);
      }
      assert BitsOf(Shr(val, len), 0) == [];
      var i := len - 1;
      while i >= 0
        invariant -1 <= i < len
        invariant bits == old(bits) + BitsOf(Shr(val, i + 1), len - 1 - i)
      {
        BitsOfSnoc(val, i, len - 1 - i);
        bits := bits + [GetBit(val, i)];
        i := i - 1;
      }
      ShrNone(val);
      return Ok(());
    }
  }

  lemma ShrNone(val: nat)
    ensures Shr(val, 0) == val
  {
  }

  //////////////////////////////////////////////////////////////////////////////
  // Bits and bytes
  //////////////////////////////////////////////////////////////////////////////

  /** The bits of a byte string, most significant bit of each byte first. */
  function Unpack(bytes: seq<Byte>): (bits: seq<bool>)
    ensures |bits| == 8 * |bytes|
    ensures forall i :: 0 <= i < |bits| ==> bits[i] == GetBit(bytes[i / 8], 7 - i % 8)
  {
    seq(8 * |bytes|, i requires 0 <= i < 8 * |bytes| => GetBit(bytes[i / 8], 7 - i % 8))
  }

  /** The bytes of a bit string. */
  function Pack(bits: seq<bool>): (bytes: seq<Byte>)
    requires |bits| % 8 == 0
    ensures |bytes| == |bits| / 8
    ensures forall k :: 0 <= k < |bytes| ==> bytes[k] == ValueOf(bits[8 * k..8 * k + 8])
  {
    seq(|bits| / 8, k requires 0 <= k < |bits| / 8 => Octet(bits[8 * k..8 * k + 8]))
  }

  function Octet(bits: seq<bool>): (b: Byte)
    requires |bits| == 8
    ensures b == ValueOf(bits)
  {
    BitsOfValueOf(bits);
    assert Pow2(8) == 256;
    ValueOf(bits)
  }

  /** Unpacking one byte gives the eight bits that appending it would write. */
  lemma UnpackByte(bytes: seq<Byte>, k: nat)
    requires k < |bytes|
    ensures Unpack(bytes)[8 * k..8 * k + 8] == BitsOf(bytes[k], 8)
  {
    hide BitsOf, GetBit;
    forall i | 0 <= i < 8
      ensures Unpack(bytes)[8 * k + i] == BitsOf(bytes[k], 8)[i]
    {
      assert (8 * k + i) / 8 == k && (8 * k + i) % 8 == i;
      BitsOfAt(bytes[k], 8, i);
    }
  }

  lemma UnpackNothing()
    ensures Unpack([]) == []
  {
  }

  /** One more byte means eight more bits, in the order in which appending would write them. */
  lemma UnpackSnoc(bytes: seq<Byte>, b: Byte)
    ensures Unpack(bytes + [b]) == Unpack(bytes) + BitsOf(b, 8)
  {
    hide BitsOf, GetBit;
    UnpackByte(bytes + [b], |bytes|);
    forall i | 0 <= i < 8 * |bytes|
      ensures Unpack(bytes + [b])[i] == Unpack(bytes)[i]
    {
    }
    var all := Unpack(bytes + [b]);
    assert all == all[..8 * |bytes|] + all[8 * |bytes|..8 * |bytes| + 8];
    assert all[..8 * |bytes|] == Unpack(bytes);
  }

  lemma UnpackPack(bits: seq<bool>)
    requires |bits| % 8 == 0
    ensures Unpack(Pack(bits)) == bits
  {
    hide BitsOf, GetBit, ValueOf;
    var bytes := Pack(bits);
    forall i | 0 <= i < |bits|
      ensures Unpack(bytes)[i] == bits[i]
    {
      var k := i / 8;
      var octet := bits[8 * k..8 * k + 8];
      UnpackByte(bytes, k);
      BitsOfValueOf(octet);
      assert Unpack(bytes)[8 * k..8 * k + 8][i % 8] == octet[i % 8];
    }
  }

  lemma PackUnpack(bytes: seq<Byte>)
    ensures Pack(Unpack(bytes)) == bytes
  {
    hide BitsOf, GetBit, ValueOf;
    forall k | 0 <= k < |bytes|
      ensures Pack(Unpack(bytes))[k] == bytes[k]
    {
      UnpackByte(bytes, k);
      assert bytes[k] < Pow2(8);
      ValueOfBitsOf(bytes[k], 8);
    }
  }

  /** What byte k holds after the first i bits have been or-ed in. */
  function Partial(bits: seq<bool>, i: nat, k: nat): (v: nat)
    requires i <= |bits|
  {
    if i <= 8 * k then 0
    else if 8 * k + 8 <= i then ValueOf(bits[8 * k..8 * k + 8])
    else ValueOf(bits[8 * k..i]) * Pow2(8 * k + 8 - i)
  }

  lemma PartialStep(bits: seq<bool>, i: nat, k: nat)
    requires i < |bits|
    ensures k != i / 8 ==> Partial(bits, i + 1, k) == Partial(bits, i, k)
    ensures k == i / 8 ==>
              Partial(bits, i + 1, k) == Or(Partial(bits, i, k), (if bits[i] then 1 else 0) * Pow2(7 - i % 8))
  {
    hide Or, ValueOf;
    if k == i / 8 {
      var done := bits[8 * k..i];
      OrShift(ValueOf(done), bits[i], 7 - i % 8);
      assert bits[8 * k..i + 1] == done + [bits[i]];
      ValueOfSnoc(done, bits[i]);
      ValueOfEmpty();
      assert Pow2(0) == 1;
    }
  }

  lemma ValueOfEmpty()
    ensures ValueOf([]) == 0
  {
  }

  /** Packing by or-ing every bit, shifted to its place, into its byte. */
  method PackBits(bits: seq<bool>) returns (bytes: seq<Byte>)
    requires |bits| % 8 == 0
    ensures bytes == Pack(bits)
  {
    hide ValueOf, Or, Partial;
    assert forall k: nat :: Partial(bits, 0, k) == 0 by { PartialStart(bits); }
    var codewords := new nat[|bits| / 8](i => 0);
    for i := 0 to |bits|
      invariant forall k: nat :: k < codewords.Length ==> codewords[k] == Partial(bits, i, k)
    {
      forall k: nat
        ensures k != i / 8 ==> Partial(bits, i + 1, k) == Partial(bits, i, k)
      {
        PartialStep(bits, i, k);
      }
      PartialStep(bits, i, i / 8);
      codewords[i / 8] := Or(codewords[i / 8], (if bits[i] then 1 else 0) * Pow2(7 - i % 8));
    }
    forall k: nat | k < codewords.Length
      ensures codewords[k] == Pack(bits)[k]
    {
      PartialEnd(bits, k);
    }
    assert codewords[..] == Pack(bits);
    bytes := codewords[..];
  }

  lemma PartialStart(bits: seq<bool>)
    ensures forall k: nat :: Partial(bits, 0, k) == 0
  {
  }

  lemma PartialEnd(bits: seq<bool>, k: nat)
    requires 8 * k + 8 <= |bits|
    ensures Partial(bits, |bits|, k) == ValueOf(bits[8 * k..8 * k + 8])
  {
  }
}
