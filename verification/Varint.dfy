/**
Variable-length integers, seven bits a byte with the least significant group first, as in unsigned
LEB128 (section 7.6 of DWARF 4), and the genesis transaction written with them.
*/
module Varint {
  import opened Bits
  import opened Results

  /** The encoding of a number. */
  function Encode(i: nat): (out: seq<Byte>)
    ensures |out| >= 1
  {
    if i < 128 then [i] else [128 + i % 128] + Encode(i / 128)
  }

  /** Reads one number off the front of a byte string. */
  function Decode(bytes: seq<Byte>): (r: Option<(nat, seq<Byte>)>)
  {
    if |bytes| == 0 then None
    else if bytes[0] < 128 then Some((bytes[0], bytes[1..]))
    else
      match Decode(bytes[1..])
      case None => None
      case Some((v, rest)) => Some((bytes[0] - 128 + 128 * v, rest))
  }

  /** Whatever follows, decoding returns the number and exactly what follows. */
  lemma {:induction false} DecodeInverts(i: nat, trailer: seq<Byte>)
    ensures Decode(Encode(i) + trailer) == Some((i, trailer))
  {
    var all := Encode(i) + trailer;
    if i < 128 {
      assert all[1..] == trailer;
    } else {
      DecodeInverts(i / 128, trailer);
      assert all[1..] == Encode(i / 128) + trailer;
    }
  }

  /** No encoding is a prefix of the encoding of another number. */
  lemma PrefixFree(i: nat, j: nat)
    ensures Encode(i) <= Encode(j) ==> i == j
  {
    if Encode(i) <= Encode(j) {
      DecodeInverts(i, Encode(j)[|Encode(i)|..]);
      assert Encode(j) == Encode(i) + Encode(j)[|Encode(i)|..];
      DecodeInverts(j, []);
      assert Encode(j) + [] == Encode(j);
    }
  }

  /** Encodings of more than one byte do not end in zero, and only the last byte is below 128. */
  lemma {:induction false} EncodeShape(i: nat)
    ensures var out := Encode(i);
            && (|out| > 1 ==> out[|out| - 1] != 0)
            && out[|out| - 1] < 128
            && forall k :: 0 <= k < |out| - 1 ==> out[k] >= 128
  {
    if i >= 128 {
      EncodeShape(i / 128);
    }
  }

  /** A number shifted right by k groups of seven bits. */
  function Shifted(i: nat, k: nat): (r: nat)
  {
    if k == 0 then i else Shifted(i / 128, k - 1)
  }

  /** Byte k holds the k-th group of seven bits, counted from the least significant one. */
  lemma {:induction false} EncodeGroups(i: nat, k: nat)
    requires k < |Encode(i)|
    ensures Encode(i)[k] % 128 == Shifted(i, k) % 128
    decreases k
  {
    if k != 0 {
      EncodeGroups(i / 128, k - 1);
    }
  }

  /** Every byte string that decodes completely to a number is at least as long, and the only one of that length. */
  lemma {:induction false} EncodeMinimal(bytes: seq<Byte>, i: nat)
    requires Decode(bytes) == Some((i, []))
    ensures |bytes| >= |Encode(i)|
    ensures |bytes| == |Encode(i)| ==> bytes == Encode(i)
    decreases |bytes|
  {
    if bytes[0] < 128 {
      assert bytes == [bytes[0]];
    } else {
      var v := Decode(bytes[1..]).value.0;
      assert Decode(bytes[1..]) == Some((v, []));
      EncodeMinimal(bytes[1..], v);
      assert bytes == [bytes[0]] + bytes[1..];
      if i >= 128 {
        assert i / 128 == v && i % 128 == bytes[0] - 128;
      }
    }
  }

  /** A string that decodes completely is the encoding exactly if it has no redundant final zero byte. */
  lemma {:induction false} CanonicalIffNoFinalZero(bytes: seq<Byte>, i: nat)
    requires Decode(bytes) == Some((i, []))
    ensures |bytes| >= 1
    ensures bytes == Encode(i) <==> |bytes| == 1 || bytes[|bytes| - 1] != 0
    decreases |bytes|
  {
    EncodeShape(i);
    if bytes[0] < 128 {
      assert bytes == [bytes[0]];
    } else {
      var v := Decode(bytes[1..]).value.0;
      CanonicalIffNoFinalZero(bytes[1..], v);
      assert bytes == [bytes[0]] + bytes[1..];
      assert i == bytes[0] - 128 + 128 * v;
      if |bytes| == 2 {
        assert bytes[1..] == [bytes[1]];
      }
      if v > 0 {
        assert i / 128 == v && i % 128 == bytes[0] - 128;
      } else {
        ZeroCanonical(bytes[1..]);
      }
    }
  }

  lemma ZeroCanonical(bytes: seq<Byte>)
    requires Decode(bytes) == Some((0, []))
    ensures |bytes| >= 1 && bytes[|bytes| - 1] == 0
    decreases |bytes|
  {
    if bytes[0] >= 128 {
      ZeroCanonical(bytes[1..]);
    } else {
      assert bytes == [bytes[0]];
    }
  }

  /** The loop of the encoder, on integers of any size; negative ones are refused. */
  method EncodeVarint(i: int) returns (r: Result<seq<Byte>>)
    ensures r == if i < 0 then Err(DomainError) else Ok(Encode(i))
  {
    hide Or;
    var out: seq<Byte> := [];
    var rest := i;
    while rest >= 0x80
      invariant i >= 0 ==> rest >= 0 && out + Encode(rest) == Encode(i)
      invariant i < 0 ==> rest == i
      decreases rest
    {
      assert Pow2(7) == 128;
      OrBelow(1, rest % 128, 7);
      ghost var before := rest;
      out := out + [Or(0x80, rest % 128)];
      rest := rest / 128;
    }
    if rest < 0 {
      return Err(DomainError);
    }
    return Ok(out + [rest]);
  }

  //////////////////////////////////////////////////////////////////////////////
  // Lists of fields
  //////////////////////////////////////////////////////////////////////////////

  /** A serialised field: a number, or a byte written as it is. */
  datatype Field = Number(value: nat) | Tag(byte: Byte)

  function Write(fs: seq<Field>): (bytes: seq<Byte>)
  {
    if |fs| == 0 then [] else WriteOne(fs[0]) + Write(fs[1..])
  }

  function WriteOne(f: Field): (bytes: seq<Byte>)
    ensures |bytes| >= 1
  {
    match f
    case Number(v) => Encode(v)
    case Tag(b) => [b]
  }

  /** Reads fields of the given kinds (true for numbers) and requires that nothing is left. */
  function ReadFields(bytes: seq<Byte>, kinds: seq<bool>): (r: Option<seq<Field>>)
    decreases |kinds|
  {
    if |kinds| == 0 then if |bytes| == 0 then Some([]) else None
    else if kinds[0] then
      match Decode(bytes)
      case None => None
      case Some((v, rest)) => Prepend(Number(v), ReadFields(rest, kinds[1..]))
    else if |bytes| == 0 then None
    else Prepend(Tag(bytes[0]), ReadFields(bytes[1..], kinds[1..]))
  }

  function Prepend(f: Field, r: Option<seq<Field>>): (s: Option<seq<Field>>)
  {
    match r
    case None => None
    case Some(fs) => Some([f] + fs)
  }

  function Kinds(fs: seq<Field>): (kinds: seq<bool>)
  {
    seq(|fs|, i requires 0 <= i < |fs| => fs[i].Number?)
  }

  /** A concatenation of fields parses back uniquely. */
  lemma {:induction false} ReadFieldsInverts(fs: seq<Field>)
    ensures ReadFields(Write(fs), Kinds(fs)) == Some(fs)
    decreases |fs|
  {
    hide Encode, Decode;
    if |fs| != 0 {
      ReadFieldsInverts(fs[1..]);
      assert Kinds(fs)[1..] == Kinds(fs[1..]);
      assert fs == [fs[0]] + fs[1..];
      match fs[0] {
        case Number(v) => DecodeInverts(v, Write(fs[1..]));
        case Tag(b) => assert Write(fs)[1..] == Write(fs[1..]);
      }
    }
  }

  /** Field lists of the same kinds with equal bytes are equal. */
  lemma WriteInjective(fs: seq<Field>, gs: seq<Field>)
    requires Kinds(fs) == Kinds(gs) && Write(fs) == Write(gs)
    ensures fs == gs
  {
    ReadFieldsInverts(fs);
    ReadFieldsInverts(gs);
  }

  /** Version, unlock time, number of inputs, input type, height, number of outputs, extra size. */
  const GENESIS_FIELDS: seq<Field> :=
    [Number(1), Number(0), Number(1), Tag(0xff), Number(0), Number(0), Number(0)]

  /** Appends the fields of the genesis transaction one by one. */
  method GenerateGenesisTx() returns (tx: seq<Byte>)
    ensures tx == Write(GENESIS_FIELDS)
    ensures tx == [1, 0, 1, 0xff, 0, 0, 0]
    ensures ReadFields(tx, Kinds(GENESIS_FIELDS)) == Some(GENESIS_FIELDS)
  {
    ReadFieldsInverts(GENESIS_FIELDS);
    tx := [];
    var version := EncodeVarint(1);
    tx := tx + version.value;
    var unlockTime := EncodeVarint(0);
    tx := tx + unlockTime.value;
    var inputs := EncodeVarint(1);
    tx := tx + inputs.value;
    tx := tx + [0xff];
    var height := EncodeVarint(0);
    tx := tx + height.value;
    var outputs := EncodeVarint(0);
    tx := tx + outputs.value;
    var extra := EncodeVarint(0);
    tx := tx + extra.value;
    WriteGenesis();
  }

  lemma WriteGenesis()
    ensures Write(GENESIS_FIELDS) == [1, 0, 1, 0xff, 0, 0, 0]
  {
    var fs := GENESIS_FIELDS;
    assert Write(fs[7..]) == [];
    assert fs[6..][1..] == fs[7..] && Write(fs[6..]) == [0];
    assert fs[5..][1..] == fs[6..] && Write(fs[5..]) == [0, 0];
    assert fs[4..][1..] == fs[5..] && Write(fs[4..]) == [0, 0, 0];
    assert fs[3..][1..] == fs[4..] && Write(fs[3..]) == [0xff, 0, 0, 0];
    assert fs[2..][1..] == fs[3..] && Write(fs[2..]) == [1, 0xff, 0, 0, 0];
    assert fs[1..][1..] == fs[2..] && Write(fs[1..]) == [0, 1, 0xff, 0, 0, 0];
  }
}
