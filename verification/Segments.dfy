/** Segments of data and their bit encodings (section 7.4 of ISO/IEC 18004:2015). */
module Segments {
  import opened Bits
  import opened BitStrings
  import opened Results
  import opened Packings

  const INT_MAX := 0x7FFF_FFFF

  datatype Mode = Numeric | Alphanumeric | ByteMode | Kanji | Eci
  {
    /** The four-bit mode indicator. */
    function ModeBits(): (r: nat)
      ensures 1 <= r < 16
    {
      match this
      case Numeric => 1
      case Alphanumeric => 2
      case ByteMode => 4
      case Kanji => 8
      case Eci => 7
    }

    /** The widths of the character count field in versions 1 to 9, 10 to 26 and 27 to 40. */
    function CountWidths(): (r: seq<nat>)
      ensures |r| == 3 && forall i :: 0 <= i < 3 ==> r[i] <= 16
    {
      match this
      case Numeric => [10, 12, 14]
      case Alphanumeric => [9, 11, 13]
      case ByteMode => [8, 16, 16]
      case Kanji => [8, 10, 12]
      case Eci => [0, 0, 0]
    }

    function NumCharCountBits(ver: int): (r: nat)
      requires 1 <= ver <= 40
      ensures r <= 16
    {
      CountWidths()[(ver + 7) / 17]
    }
  }

  datatype QrSegment = QrSegment(mode: Mode, numChars: nat, data: seq<bool>)

  /** A C string: its characters are bytes other than the terminating zero. */
  type CString = s: string | forall i :: 0 <= i < |s| ==> 0 < s[i] as int < 256

  //////////////////////////////////////////////////////////////////////////////
  // Numeric mode
  //////////////////////////////////////////////////////////////////////////////

  const NUMERIC := Packing(10, 3, [0, 4, 7, 10])

  lemma NumericValid()
    ensures NUMERIC.Valid()
  {
    assert Pow2(4) == 16 && Pow2(7) == 128 && Pow2(10) == 8 * Pow2(7);
    forall ds: seq<nat> | 1 <= |ds| <= 3 && forall i :: 0 <= i < |ds| ==> ds[i] < 10
      ensures DigitsValue(ds, 10) < Pow2(NUMERIC.widths[|ds|])
    {
      ShortDigits(ds, 10);
    }
  }

  /** Ten bits for three digits, seven for two and four for one. */
  lemma {:induction false} NumericLength(n: nat)
    ensures NUMERIC.BitLength(n) == 10 * (n / 3) + (if n % 3 == 0 then 0 else if n % 3 == 1 then 4 else 7)
  {
    if n > 3 {
      NumericLength(n - 3);
    }
  }

  predicate IsDigit(c: char)
  {
    '0' <= c <= '9'
  }

  predicate IsNumeric(text: string)
  {
    forall i :: 0 <= i < |text| ==> IsDigit(text[i])
  }

  function DigitValue(c: char): (d: nat)
    requires IsDigit(c)
    ensures d < 10
  {
    c as int - '0' as int
  }

  function NumericDigits(text: string): (ds: seq<nat>)
    requires IsNumeric(text)
    ensures |ds| == |text| && forall i :: 0 <= i < |ds| ==> ds[i] == DigitValue(text[i])
  {
    seq(|text|, i requires 0 <= i < |text| => DigitValue(text[i]))
  }

  lemma NumericStart(text: string)
    ensures IsNumeric(text[..0]) && NumericDigits(text[..0]) == []
  {
  }

  lemma NumericNext(text: string, k: nat)
    requires k < |text| && IsNumeric(text[..k])
    ensures if IsDigit(text[k])
            then IsNumeric(text[..k + 1]) && NumericDigits(text[..k + 1]) == NumericDigits(text[..k]) + [DigitValue(text[k])]
            else !IsNumeric(text)
  {
  }

  function NumericText(ds: seq<nat>): (text: string)
  {
    seq(|ds|, i requires 0 <= i < |ds| => (ds[i] % 10 + '0' as int) as char)
  }

  lemma NumericTextInverts(text: string)
    requires IsNumeric(text)
    ensures NumericText(NumericDigits(text)) == text
  {
  }

  /** Appends a field that is known to fit. */
  method AppendField(bb: BitBuffer, val: nat, len: nat)
    requires len <= 31 && val < Pow2(len)
    modifies bb
    ensures bb.bits == old(bb.bits) + BitsOf(val, len)
  {
    hide Pow2, BitsOf;
    FieldFitsWord(len);
    var appended := bb.AppendBits(val, len);
  }

  /** Encodes a string of digits, or refuses it if it has any other character. */
  method MakeNumeric(digits: CString) returns (r: Result<QrSegment>)
    ensures !IsNumeric(digits) ==> r == Err(DomainError)
    ensures IsNumeric(digits) ==> r == Ok(QrSegment(Numeric, |digits|, NUMERIC.Encode(NumericDigits(digits))))
  {
    hide Accumulated, Packing.Encode, Packing.Valid, BitsOf, Pow2, NumericDigits, IsNumeric;
    NumericValid();
    NumericStart(digits);
    var bb := new BitBuffer();
    var accumData: nat := 0;
    var accumCount: nat := 0;
    var charCount := 0;
    ghost var ds: seq<nat> := [];
    AccumulateNothing(NUMERIC);
    while charCount < |digits|
      invariant 0 <= charCount <= |digits| && IsNumeric(digits[..charCount])
      invariant ds == NumericDigits(digits[..charCount])
      invariant accumCount < 3 && Accumulated(NUMERIC, ds, bb.bits, accumData, accumCount)
    {
      var c := digits[charCount];
      NumericNext(digits, charCount);
      if c < '0' || c > '9' {
        return Err(DomainError);
      }
      Accumulate(NUMERIC, ds, DigitValue(c), bb.bits, accumData, accumCount);
      ds := ds + [DigitValue(c)];
      accumData := accumData * 10 + (c as int - '0' as int);
      accumCount := accumCount + 1;
      if accumCount == 3 {
        AppendField(bb, accumData, 10);
        accumData := 0;
        accumCount := 0;
      }
      charCount := charCount + 1;
    }
    assert digits[..charCount] == digits;
    AccumulateEnd(NUMERIC, ds, bb.bits, accumData, accumCount);
    if accumCount > 0 {
      AppendField(bb, accumData, accumCount * 3 + 1);
    }
    return Ok(QrSegment(Numeric, charCount, bb.bits));
  }

  //////////////////////////////////////////////////////////////////////////////
  // Alphanumeric mode
  //////////////////////////////////////////////////////////////////////////////

  const ALPHANUMERIC_CHARSET := "0123456789ABCDEFGHIJKLMNOPQRSTUVWXYZ $%*+-./:"

  const ALPHANUMERIC := Packing(45, 2, [0, 6, 11])

  lemma AlphanumericValid()
    ensures ALPHANUMERIC.Valid()
  {
    assert Pow2(6) == 64 && Pow2(11) == 32 * Pow2(6);
    forall ds: seq<nat> | 1 <= |ds| <= 2 && forall i :: 0 <= i < |ds| ==> ds[i] < 45
      ensures DigitsValue(ds, 45) < Pow2(ALPHANUMERIC.widths[|ds|])
    {
      ShortDigits(ds, 45);
    }
  }

  /** Eleven bits for two characters and six for one. */
  lemma {:induction false} AlphanumericLength(n: nat)
    ensures ALPHANUMERIC.BitLength(n) == 11 * (n / 2) + 6 * (n % 2)
  {
    if n > 2 {
      AlphanumericLength(n - 2);
    }
  }

  /** The first position of a character in a string from position i on, or -1. */
  function IndexFrom(s: string, c: char, i: nat): (r: int)
    requires i <= |s|
    ensures r == -1 ==> c !in s[i..]
    ensures r != -1 ==> i <= r < |s| && s[r] == c && c !in s[i..r]
    decreases |s| - i
  {
    if i == |s| then -1
    else if s[i] == c then i
    else IndexFrom(s, c, i + 1)
  }

  predicate IsCharsetChar(c: char)
  {
    c in ALPHANUMERIC_CHARSET
  }

  predicate IsAlphanumeric(text: string)
  {
    forall i :: 0 <= i < |text| ==> IsCharsetChar(text[i])
  }

  function CharsetIndex(c: char): (d: nat)
    requires IsCharsetChar(c)
    ensures d < 45
  {
    IndexFrom(ALPHANUMERIC_CHARSET, c, 0)
  }

  function CharsetChar(d: nat): (c: char)
  {
    ALPHANUMERIC_CHARSET[d % 45]
  }

  lemma CharsetCharInverts(c: char)
    requires IsCharsetChar(c)
    ensures CharsetChar(CharsetIndex(c)) == c
  {
    assert CharsetIndex(c) % 45 == CharsetIndex(c);
  }

  function AlphanumericDigits(text: string): (ds: seq<nat>)
    requires IsAlphanumeric(text)
    ensures |ds| == |text| && forall i :: 0 <= i < |ds| ==> ds[i] == CharsetIndex(text[i])
  {
    seq(|text|, i requires 0 <= i < |text| => CharsetIndex(text[i]))
  }

  function AlphanumericText(ds: seq<nat>): (text: string)
  {
    seq(|ds|, i requires 0 <= i < |ds| => CharsetChar(ds[i]))
  }

  lemma AlphanumericTextInverts(text: string)
    requires IsAlphanumeric(text)
    ensures AlphanumericText(AlphanumericDigits(text)) == text
  {
    hide CharsetIndex, CharsetChar, IsCharsetChar;
    var ds := AlphanumericDigits(text);
    forall i | 0 <= i < |text|
      ensures AlphanumericText(ds)[i] == text[i]
    {
      CharsetCharInverts(text[i]);
    }
  }

  lemma AlphanumericStart(text: string)
    ensures IsAlphanumeric(text[..0]) && AlphanumericDigits(text[..0]) == []
  {
  }

  lemma AlphanumericNext(text: string, k: nat)
    requires k < |text| && IsAlphanumeric(text[..k])
    ensures if IsCharsetChar(text[k])
            then IsAlphanumeric(text[..k + 1])
                 && AlphanumericDigits(text[..k + 1]) == AlphanumericDigits(text[..k]) + [CharsetIndex(text[k])]
            else !IsAlphanumeric(text)
  {
    hide CharsetIndex, IsCharsetChar;
  }

  /** Encodes a text of the 45 permitted characters, or refuses it if it has any other. */
  method MakeAlphanumeric(text: CString) returns (r: Result<QrSegment>)
    ensures !IsAlphanumeric(text) ==> r == Err(DomainError)
    ensures IsAlphanumeric(text) ==>
              r == Ok(QrSegment(Alphanumeric, |text|, ALPHANUMERIC.Encode(AlphanumericDigits(text))))
  {
    hide Accumulated, Packing.Encode, Packing.Valid, BitsOf, Pow2, AlphanumericDigits, IsAlphanumeric, IsCharsetChar, CharsetIndex;
    AlphanumericValid();
    AlphanumericStart(text);
    var bb := new BitBuffer();
    var accumData: nat := 0;
    var accumCount: nat := 0;
    var charCount := 0;
    ghost var ds: seq<nat> := [];
    AccumulateNothing(ALPHANUMERIC);
    while charCount < |text|
      invariant 0 <= charCount <= |text| && IsAlphanumeric(text[..charCount])
      invariant ds == AlphanumericDigits(text[..charCount])
      invariant accumCount < 2 && Accumulated(ALPHANUMERIC, ds, bb.bits, accumData, accumCount)
    {
      var temp := FindInCharset(text[charCount]);
      AlphanumericNext(text, charCount);
      if temp == -1 {
        return Err(DomainError);
      }
      Accumulate(ALPHANUMERIC, ds, temp, bb.bits, accumData, accumCount);
      ds := ds + [temp];
      accumData := accumData * 45 + temp;
      accumCount := accumCount + 1;
      if accumCount == 2 {
        AppendField(bb, accumData, 11);
        accumData := 0;
        accumCount := 0;
      }
      charCount := charCount + 1;
    }
    assert text[..charCount] == text;
    AccumulateEnd(ALPHANUMERIC, ds, bb.bits, accumData, accumCount);
    if accumCount > 0 {
      AppendField(bb, accumData, 6);
    }
    return Ok(QrSegment(Alphanumeric, charCount, bb.bits));
  }

  /** The offset of a character in the charset, or -1 if it does not occur. */
  method FindInCharset(c: char) returns (temp: int)
    ensures temp == -1 <==> !IsCharsetChar(c)
    ensures temp != -1 ==> temp == CharsetIndex(c)
  {
    temp := FindChar(ALPHANUMERIC_CHARSET, c);
  }

  method FindChar(s: string, c: char) returns (temp: int)
    ensures temp == IndexFrom(s, c, 0)
  {
    hide IndexFrom;
    temp := 0;
    while temp < |s|
      invariant 0 <= temp <= |s|
      invariant IndexFrom(s, c, 0) == IndexFrom(s, c, temp)
    {
      IndexUnfold(s, c, temp);
      if s[temp] == c {
        return;
      }
      temp := temp + 1;
    }
    IndexUnfold(s, c, temp);
    temp := -1;
  }

  lemma IndexUnfold(s: string, c: char, i: nat)
    requires i <= |s|
    ensures IndexFrom(s, c, i) == if i == |s| then -1 else if s[i] == c then i else IndexFrom(s, c, i + 1)
  {
  }

  //////////////////////////////////////////////////////////////////////////////
  // Byte mode and ECI designators
  //////////////////////////////////////////////////////////////////////////////

  /** Encodes any bytes, unless there are more than an int can count. */
  method MakeBytes(data: seq<Byte>) returns (r: Result<QrSegment>)
    ensures r == if |data| > INT_MAX then Err(LengthError) else Ok(QrSegment(ByteMode, |data|, Unpack(data)))
  {
    hide BitsOf, Unpack;
    if |data| > INT_MAX {
      return Err(LengthError);
    }
    var bb := new BitBuffer();
    UnpackNothing();
    assert Pow2(8) == 256;
    for i := 0 to |data|
      invariant bb.bits == Unpack(data[..i])
    {
      var appended := bb.AppendBits(data[i], 8);
      assert data[..i + 1] == data[..i] + [data[i]];
      UnpackSnoc(data[..i], data[i]);
    }
    assert data[..|data|] == data;
    return Ok(QrSegment(ByteMode, |data|, bb.bits));
  }

  /** The bits of an ECI designator: one, two or three bytes, told apart by the leading bits. */
  function EciBits(v: nat): (bits: seq<bool>)
  {
    if v < 128 then BitsOf(v, 8)
    else if v < 16384 then BitsOf(2, 2) + BitsOf(v, 14)
    else BitsOf(6, 3) + BitsOf(v, 21)
  }

  /** The number of bits of the ECI designator at the start of a bit string; 0 if there is none. */
  function EciLength(bits: seq<bool>): (n: nat)
  {
    if |bits| >= 8 && !bits[0] then 8
    else if |bits| >= 16 && bits[0] && !bits[1] then 16
    else if |bits| >= 24 && bits[0] && bits[1] && !bits[2] then 24
    else 0
  }

  function DecodeEci(bits: seq<bool>): (v: nat)
    requires |bits| == EciLength(bits)
  {
    if |bits| == 8 then ValueOf(bits)
    else if |bits| == 16 then ValueOf(bits[2..])
    else if |bits| == 24 then ValueOf(bits[3..])
    else 0
  }

  lemma EciConstants()
    ensures Pow2(7) == 128 && Pow2(8) == 256 && Pow2(14) == 16384 && Pow2(21) == 2097152
    ensures BitsOf(2, 2) == [true, false] && BitsOf(6, 3) == [true, true, false]
    ensures Pow2(2) == 4 && Pow2(3) == 8
  {
    assert Pow2(7) == 128;
    Pow2Sum(7, 7);
    Pow2Sum(14, 7);
  }

  lemma EciInverts(v: nat)
    requires v < 1000000
    ensures EciLength(EciBits(v)) == |EciBits(v)| && DecodeEci(EciBits(v)) == v
  {
    hide BitsOf, ValueOf, Pow2, Shr;
    EciConstants();
    var bits := EciBits(v);
    if v < 128 {
      BitsOfAt(v, 8, 0);
      ShrZero(v, 7);
      ValueOfBitsOf(v, 8);
    } else if v < 16384 {
      assert bits[2..] == BitsOf(v, 14);
      ValueOfBitsOf(v, 14);
    } else {
      assert bits[3..] == BitsOf(v, 21);
      ValueOfBitsOf(v, 21);
    }
  }

  /** The designator in whole bytes: 0vvvvvvv, or 10vvvvvv and one more, or 110vvvvv and two more. */
  lemma EciBytes(v: nat)
    requires v < 1000000
    ensures EciBits(v) == Unpack(if v < 128 then [v]
                                 else if v < 16384 then [128 + v / 256, v % 256]
                                 else [192 + v / 65536, v / 256 % 256, v % 256])
  {
    hide Unpack, BitsOf;
    if v < 128 {
      EciOneByte(v);
    } else if v < 16384 {
      EciLead(2, v / 256, 6);
      EciTwoBytes(128 + v / 256, v % 256);
      SplitField(v, 6);
    } else {
      EciLead(6, v / 65536, 5);
      EciTwoBytes(192 + v / 65536, v / 256 % 256);
      EciThirdByte(192 + v / 65536, v / 256 % 256, v % 256);
      SplitField(v, 13);
      SplitField(v / 256, 5);
      assert v / 256 / 256 == v / 65536;
    }
  }

  lemma EciOneByte(b: Byte)
    ensures Unpack([b]) == BitsOf(b, 8)
  {
    hide Unpack, BitsOf;
    assert [] + [b] == [b];
    UnpackNothing();
    UnpackSnoc([], b);
  }

  lemma EciTwoBytes(a: Byte, b: Byte)
    ensures Unpack([a, b]) == BitsOf(a, 8) + BitsOf(b, 8)
  {
    hide Unpack, BitsOf;
    assert [a] + [b] == [a, b];
    EciOneByte(a);
    UnpackSnoc([a], b);
  }

  lemma EciThirdByte(a: Byte, b: Byte, c: Byte)
    ensures Unpack([a, b, c]) == Unpack([a, b]) + BitsOf(c, 8)
  {
    hide Unpack, BitsOf;
    assert [a, b] + [c] == [a, b, c];
    UnpackSnoc([a, b], c);
  }

  /** A field splits into the field of the upper digits and the last byte. */
  lemma SplitField(v: nat, w: nat)
    ensures BitsOf(v, w + 8) == BitsOf(v / 256, w) + BitsOf(v % 256, 8)
  {
    FieldConcat(v / 256, w, v % 256, 8);
    assert Pow2(8) == 256;
  }

  lemma {:induction false} FieldConcat(a: nat, w: nat, b: nat, k: nat)
    requires b < Pow2(k)
    ensures BitsOf(a * Pow2(k) + b, w + k) == BitsOf(a, w) + BitsOf(b, k)
  {
    hide Pow2, BitsOf;
    FieldSteps(a, w, b, k);
    if k != 0 {
      FieldConcat(a, w, b / 2, k - 1);
    }
  }

  lemma FieldSteps(a: nat, w: nat, b: nat, k: nat)
    requires b < Pow2(k)
    ensures k == 0 ==> BitsOf(a * Pow2(k) + b, w + k) == BitsOf(a, w) && BitsOf(b, k) == []
    ensures k >= 1 ==>
              && b / 2 < Pow2(k - 1)
              && BitsOf(a * Pow2(k) + b, w + k) == BitsOf(a * Pow2(k - 1) + b / 2, w + k - 1) + [Odd(b)]
              && BitsOf(b, k) == BitsOf(b / 2, k - 1) + [Odd(b)]
  {
    if k >= 1 {
      var v, m := a * Pow2(k) + b, a * Pow2(k - 1);
      TimesPow2(a, k - 1);
      assert v == 2 * m + b;
      assert v / 2 == m + b / 2 && Odd(v) == Odd(b);
    }
  }

  lemma EciLead(lead: nat, v: nat, w: nat)
    requires (lead == 2 && w == 6) || (lead == 6 && w == 5)
    requires v < Pow2(w)
    ensures Pow2(w) * lead + v < 256
    ensures BitsOf(lead * Pow2(w) + v, 8) == BitsOf(lead, 8 - w) + BitsOf(v, w)
  {
    assert Pow2(6) == 64 && Pow2(5) == 32;
    FieldConcat(lead, 8 - w, v, w);
  }

  /** Encodes an ECI assignment value, or refuses one out of range. */
  method MakeEci(assignVal: int) returns (r: Result<QrSegment>)
    ensures r == if 0 <= assignVal < 1000000 then Ok(QrSegment(Eci, 0, EciBits(assignVal))) else Err(DomainError)
  {
    hide BitsOf, Pow2;
    EciConstants();
    var bb := new BitBuffer();
    if assignVal < 0 {
      return Err(DomainError);
    } else if assignVal < 128 {
      var appended := bb.AppendBits(assignVal, 8);
      assert bb.bits == EciBits(assignVal);
    } else if assignVal < 16384 {
      var prefix := bb.AppendBits(2, 2);
      var appended := bb.AppendBits(assignVal, 14);
      assert bb.bits == EciBits(assignVal);
    } else if assignVal < 1000000 {
      var prefix := bb.AppendBits(6, 3);
      var appended := bb.AppendBits(assignVal, 21);
      assert bb.bits == EciBits(assignVal);
    } else {
      return Err(DomainError);
    }
    return Ok(QrSegment(Eci, 0, bb.bits));
  }

  //////////////////////////////////////////////////////////////////////////////
  // Payloads
  //////////////////////////////////////////////////////////////////////////////

  /** What a segment stands for. */
  datatype Payload =
    | Digits(digits: string)
    | Text(text: string)
    | Bytes(bytes: seq<Byte>)
    | Designator(value: nat)

  ghost predicate Encodable(p: Payload)
  {
    match p
    case Digits(s) => IsNumeric(s)
    case Text(s) => IsAlphanumeric(s)
    case Bytes(b) => true
    case Designator(v) => v < 1000000
  }

  /** The segment that the factory functions make of a payload. */
  function SegmentOf(p: Payload): (seg: QrSegment)
    requires Encodable(p)
  {
    match p
    case Digits(s) => QrSegment(Numeric, |s|, NUMERIC.Encode(NumericDigits(s)))
    case Text(s) => QrSegment(Alphanumeric, |s|, ALPHANUMERIC.Encode(AlphanumericDigits(s)))
    case Bytes(b) => QrSegment(ByteMode, |b|, Unpack(b))
    case Designator(v) => QrSegment(Eci, 0, EciBits(v))
  }

  /** The number of data bits that mode and character count promise. */
  function DataLength(mode: Mode, numChars: nat, bits: seq<bool>): (n: nat)
  {
    match mode
    case Numeric => NUMERIC.BitLength(numChars)
    case Alphanumeric => ALPHANUMERIC.BitLength(numChars)
    case ByteMode => 8 * numChars
    case Kanji => 13 * numChars
    case Eci => EciLength(bits)
  }

  /** The character count agrees with the mode and the number of bits. */
  predicate WellFormed(seg: QrSegment)
  {
    && |seg.data| == DataLength(seg.mode, seg.numChars, seg.data)
    && (seg.mode == Eci ==> seg.numChars == 0 && |seg.data| > 0)
  }

  /** The payload of a segment; there is no encoder for Kanji segments and their bits are left alone. */
  function PayloadOf(seg: QrSegment): (p: Payload)
    requires WellFormed(seg) && seg.mode != Kanji
  {
    match seg.mode
    case Numeric => Digits(NumericText(NUMERIC.Decode(seg.data, seg.numChars)))
    case Alphanumeric => Text(AlphanumericText(ALPHANUMERIC.Decode(seg.data, seg.numChars)))
    case ByteMode => Bytes(Pack(seg.data))
    case Eci => Designator(DecodeEci(seg.data))
  }

  /** Segments round-trip for payloads of every length. */
  lemma PayloadInverts(p: Payload)
    requires Encodable(p)
    ensures WellFormed(SegmentOf(p)) && SegmentOf(p).mode != Kanji
    ensures PayloadOf(SegmentOf(p)) == p
  {
    hide Packing.Encode, Packing.Decode, NumericDigits, NumericText, AlphanumericDigits, AlphanumericText,
      Unpack, Pack, EciBits, EciLength, DecodeEci, CharsetIndex, IsCharsetChar;
    match p {
      case Digits(s) =>
        NumericValid();
        NUMERIC.DecodeInverts(NumericDigits(s));
        NumericTextInverts(s);
      case Text(s) =>
        AlphanumericValid();
        ALPHANUMERIC.DecodeInverts(AlphanumericDigits(s));
        AlphanumericTextInverts(s);
      case Bytes(b) =>
        PackUnpack(b);
      case Designator(v) =>
        EciInverts(v);
        EciNonempty(v);
    }
  }

  lemma EciNonempty(v: nat)
    ensures |EciBits(v)| > 0
  {
  }
}
