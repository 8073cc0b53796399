/** The whole way from segments or text to the modules of a symbol and back. */
module EndToEnd {
  import opened Bits
  import opened BitStrings
  import opened Results
  import opened Grids
  import opened Placement
  import opened Tables
  import opened SymbolGeometry
  import opened Packings
  import opened Segments
  import opened SegmentStreams
  import opened QrCodes
  import opened Reader
  import opened Encoder

  /** The segments of a symbol, found from its modules alone. */
  ghost function ReadSegments(g: Grid): (r: Option<seq<QrSegment>>)
    requires Readable(g)
  {
    var contents := Read(g);
    if IsVersion(contents.version) then Parse(Unpack(contents.codewords), contents.version) else None
  }

  ghost predicate AllWellFormed(segs: seq<QrSegment>)
  {
    forall i :: 0 <= i < |segs| ==> WellFormed(segs[i])
  }

  /** The data codewords of well-formed segments hold exactly these segments. */
  lemma CodewordsHoldSegments(segs: seq<QrSegment>, ver: int, ecl: Ecc)
    requires IsVersion(ver) && Fits(segs, ver, ecl) && AllWellFormed(segs)
    ensures Parse(Unpack(CodewordsOf(segs, ver, ecl)), ver) == Some(segs)
  {
    hide AllBits, Padded, Pack, Unpack, Parse, Ended, DataCodewords, WellFormed, CountFits;
    CapacityNonnegative(ver, ecl);
    var bits, capacity := AllBits(segs, ver), 8 * DataCodewords(ver, ecl);
    var all := Padded(bits, capacity);
    UnpackPack(all);
    PaddingEnds(bits, capacity);
    assert all == bits + all[|bits|..];
    ParseInverts(segs, all[|bits|..], ver);
  }

  /** For every list of well-formed segments that fits, every mask: reading the symbol gives back the segments. */
  lemma SegmentsSurvive(segs: seq<QrSegment>, ver: int, ecl: Ecc, msk: nat)
    requires IsVersion(ver) && Fits(segs, ver, ecl) && AllWellFormed(segs) && msk < 8
    ensures Readable(FinishedSymbol(ver, ecl, CodewordsOf(segs, ver, ecl), msk))
    ensures ReadSegments(FinishedSymbol(ver, ecl, CodewordsOf(segs, ver, ecl), msk)) == Some(segs)
  {
    hide Fits, CodewordsOf, FinishedSymbol, Read, Parse, Unpack, Readable, DataCodewords;
    var data := CodewordsOf(segs, ver, ecl);
    ReadInverts(ver, ecl, data, msk);
    CodewordsHoldSegments(segs, ver, ecl);
  }

  /** The symbol made by the encoder is read back as the segments it was made from. */
  lemma EncodedSymbolReadsBack(qr: QrCode, segs: seq<QrSegment>, ecl: Ecc, minVersion: int, maxVersion: int, mask: int, boostEcl: bool)
    requires MIN_VERSION <= minVersion <= maxVersion <= MAX_VERSION
    requires Encodes(qr, segs, ecl, minVersion, maxVersion, mask, boostEcl) && AllWellFormed(segs)
    ensures Readable(Snapshot(qr.modules)) && ReadSegments(Snapshot(qr.modules)) == Some(segs)
  {
    hide Fits, CodewordsOf, FinishedSymbol, ReadSegments, Readable;
    SegmentsSurvive(segs, qr.version, qr.errorCorrectionLevel, qr.mask);
  }

  //////////////////////////////////////////////////////////////////////////////
  // Payloads
  //////////////////////////////////////////////////////////////////////////////

  ghost predicate AllEncodable(ps: seq<Payload>)
  {
    forall i :: 0 <= i < |ps| ==> Encodable(ps[i])
  }

  ghost function SegmentsOf(ps: seq<Payload>): (segs: seq<QrSegment>)
    requires AllEncodable(ps)
    ensures |segs| == |ps| && forall i :: 0 <= i < |ps| ==> segs[i] == SegmentOf(ps[i])
  {
    seq(|ps|, i requires 0 <= i < |ps| => SegmentOf(ps[i]))
  }

  ghost predicate HaveEncoders(segs: seq<QrSegment>)
  {
    forall i :: 0 <= i < |segs| ==> WellFormed(segs[i]) && segs[i].mode != Kanji
  }

  ghost function PayloadsOf(segs: seq<QrSegment>): (ps: seq<Payload>)
    requires HaveEncoders(segs)
    ensures |ps| == |segs| && forall i :: 0 <= i < |ps| ==> ps[i] == PayloadOf(segs[i])
  {
    seq(|segs|, i requires 0 <= i < |segs| => PayloadOf(segs[i]))
  }

  /** What a reader of the whole symbol makes of it. */
  ghost function ReadPayloads(g: Grid): (r: Option<seq<Payload>>)
    requires Readable(g)
  {
    match ReadSegments(g)
    case None => None
    case Some(segs) => if HaveEncoders(segs) then Some(PayloadsOf(segs)) else None
  }

  /** Digits, text, bytes and designators of any length that fit are read back unchanged. */
  lemma PayloadsSurvive(ps: seq<Payload>, ver: int, ecl: Ecc, msk: nat)
    requires IsVersion(ver) && AllEncodable(ps) && Fits(SegmentsOf(ps), ver, ecl) && msk < 8
    ensures Readable(FinishedSymbol(ver, ecl, CodewordsOf(SegmentsOf(ps), ver, ecl), msk))
    ensures ReadPayloads(FinishedSymbol(ver, ecl, CodewordsOf(SegmentsOf(ps), ver, ecl), msk)) == Some(ps)
  {
    hide Fits, CodewordsOf, FinishedSymbol, ReadSegments, Readable, Encodable, WellFormed, PayloadOf, SegmentOf;
    var segs := SegmentsOf(ps);
    forall i | 0 <= i < |ps|
      ensures WellFormed(segs[i]) && segs[i].mode != Kanji && PayloadOf(segs[i]) == ps[i]
    {
      PayloadInverts(ps[i]);
    }
    SegmentsSurvive(segs, ver, ecl, msk);
    assert PayloadsOf(segs) == ps;
  }

  //////////////////////////////////////////////////////////////////////////////
  // Text
  //////////////////////////////////////////////////////////////////////////////

  function BytesOf(text: CString): (b: seq<Byte>)
    ensures |b| == |text| && forall i :: 0 <= i < |text| ==> b[i] == text[i] as int
  {
    seq(|text|, i requires 0 <= i < |text| => text[i] as int)
  }

  /** The payloads chosen for a text: none, digits, alphanumeric text or bytes. */
  function PayloadsFor(text: CString): (ps: seq<Payload>)
  {
    if |text| == 0 then []
    else if IsNumeric(text) then [Digits(text)]
    else if IsAlphanumeric(text) then [Text(text)]
    else [Bytes(BytesOf(text))]
  }

  lemma PayloadsForEncodable(text: CString)
    ensures AllEncodable(PayloadsFor(text))
  {
  }

  function PayloadText(p: Payload): (text: string)
  {
    match p
    case Digits(s) => s
    case Text(s) => s
    case Bytes(b) => seq(|b|, i requires 0 <= i < |b| => b[i] as char)
    case Designator(v) => []
  }

  /** The text shown by a list of payloads. */
  function TextOf(ps: seq<Payload>): (text: string)
  {
    if |ps| == 0 then [] else PayloadText(ps[0]) + TextOf(ps[1..])
  }

  lemma TextOfPayloads(text: CString)
    ensures TextOf(PayloadsFor(text)) == text
  {
    hide IsNumeric, IsAlphanumeric;
    var ps := PayloadsFor(text);
    if |text| != 0 {
      assert ps[1..] == [];
      assert TextOf([]) == [];
      assert PayloadText(ps[0]) == text;
    }
  }

  /** The number of data bits of each kind of payload. */
  function PayloadBits(p: Payload): (n: int)
  {
    match p
    case Digits(s) => 10 * (|s| / 3) + (if |s| % 3 == 0 then 0 else if |s| % 3 == 1 then 4 else 7)
    case Text(s) => 11 * (|s| / 2) + 6 * (|s| % 2)
    case Bytes(b) => 8 * |b|
    case Designator(v) => if v < 128 then 8 else if v < 16384 then 16 else 24
  }

  lemma SegmentSize(p: Payload, ver: int)
    requires IsVersion(ver) && Encodable(p)
    ensures |SegmentBits(SegmentOf(p), ver)| == 4 + HeaderWidth(SegmentOf(p).mode, ver) + PayloadBits(p)
  {
    hide BitsOf, Unpack, Packing.Encode, Packing.BitLength, NumericDigits, AlphanumericDigits, IsNumeric, IsAlphanumeric,
         HeaderWidth, Mode.NumCharCountBits;
    WidthIs(SegmentOf(p).mode, ver);
    match p
    case Digits(s) =>
      NUMERIC.EncodeLength(NumericDigits(s));
      NumericLength(|s|);
    case Text(s) =>
      ALPHANUMERIC.EncodeLength(AlphanumericDigits(s));
      AlphanumericLength(|s|);
    case Bytes(b) =>
    case Designator(v) =>
  }

  lemma CompactSizes(n: nat, ver: int)
    requires n >= 1
    ensures var numeric := 10 * (n / 3) + (if n % 3 == 0 then 0 else if n % 3 == 1 then 4 else 7);
            var alphanumeric := 11 * (n / 2) + 6 * (n % 2);
            && HeaderWidth(Numeric, ver) + numeric < HeaderWidth(Alphanumeric, ver) + alphanumeric
            && HeaderWidth(Alphanumeric, ver) + alphanumeric < HeaderWidth(ByteMode, ver) + 8 * n
  {
    var numeric := 10 * (n / 3) + (if n % 3 == 0 then 0 else if n % 3 == 1 then 4 else 7);
    assert 3 * numeric <= 10 * n + 2;
    var alphanumeric := 11 * (n / 2) + 6 * (n % 2);
    assert 11 * n <= 2 * alphanumeric <= 11 * n + 1;
  }

  lemma BytesOfText(text: CString, b: seq<Byte>)
    requires PayloadText(Bytes(b)) == text
    ensures b == BytesOf(text)
  {
    forall i | 0 <= i < |b|
      ensures b[i] == text[i] as int
    {
      assert PayloadText(Bytes(b))[i] == b[i] as char;
    }
  }

  /** The mode chosen for a text takes fewer bits, in every version, than any other payload that shows the text. */
  lemma MostCompact(text: CString, p: Payload, ver: int)
    requires |text| > 0 && IsVersion(ver) && Encodable(p) && PayloadText(p) == text
    ensures |PayloadsFor(text)| == 1 && Encodable(PayloadsFor(text)[0])
    ensures p == PayloadsFor(text)[0]
            || |SegmentBits(SegmentOf(PayloadsFor(text)[0]), ver)| < |SegmentBits(SegmentOf(p), ver)|
  {
    hide SegmentBits, HeaderWidth, IsNumeric, IsAlphanumeric;
    var q := PayloadsFor(text)[0];
    SegmentSize(p, ver);
    SegmentSize(q, ver);
    CompactSizes(|text|, ver);
    if p.Bytes? {
      BytesOfText(text, p.bytes);
    }
  }

  method IsNumericText(text: CString) returns (r: bool)
    ensures r == IsNumeric(text)
  {
    for i := 0 to |text|
      invariant forall k :: 0 <= k < i ==> IsDigit(text[k])
    {
      if text[i] < '0' || text[i] > '9' {
        return false;
      }
    }
    return true;
  }

  method IsAlphanumericText(text: CString) returns (r: bool)
    ensures r == IsAlphanumeric(text)
  {
    hide IsCharsetChar, CharsetIndex;
    for i := 0 to |text|
      invariant forall k :: 0 <= k < i ==> IsCharsetChar(text[k])
    {
      var temp := FindInCharset(text[i]);
      if temp == -1 {
        return false;
      }
    }
    return true;
  }

  /** Chooses the most compact mode that covers the whole text. */
  method MakeSegments(text: CString) returns (r: Result<seq<QrSegment>>)
    ensures AllEncodable(PayloadsFor(text))
    ensures if |text| > INT_MAX && !IsNumeric(text) && !IsAlphanumeric(text) then r == Err(LengthError)
            else r == Ok(SegmentsOf(PayloadsFor(text)))
  {
    hide IsNumeric, IsAlphanumeric, Packing.Encode, NumericDigits, AlphanumericDigits, Unpack;
    PayloadsForEncodable(text);
    if |text| == 0 {
      EmptyIsNumeric(text);
      return Ok([]);
    }
    var numeric := IsNumericText(text);
    if numeric {
      var seg := MakeNumeric(text);
      assert [seg.value] == SegmentsOf(PayloadsFor(text));
      return Ok([seg.value]);
    }
    var alphanumeric := IsAlphanumericText(text);
    if alphanumeric {
      var seg := MakeAlphanumeric(text);
      assert [seg.value] == SegmentsOf(PayloadsFor(text));
      return Ok([seg.value]);
    }
    var bytes: seq<Byte> := [];
    for i := 0 to |text|
      invariant |bytes| == i && forall k :: 0 <= k < i ==> bytes[k] == text[k] as int
    {
      bytes := bytes + [text[i] as int];
    }
    assert bytes == BytesOf(text);
    var seg := MakeBytes(bytes);
    if seg.Err? {
      return Err(seg.error);
    }
    assert [seg.value] == SegmentsOf(PayloadsFor(text));
    return Ok([seg.value]);
  }

  lemma EmptyIsNumeric(text: CString)
    requires |text| == 0
    ensures IsNumeric(text)
  {
  }

  lemma EncodesPayloads(qr: QrCode, ps: seq<Payload>, ecl: Ecc, mask: int, boostEcl: bool)
    requires AllEncodable(ps) && Encodes(qr, SegmentsOf(ps), ecl, 1, 40, mask, boostEcl)
    ensures Readable(Snapshot(qr.modules)) && ReadPayloads(Snapshot(qr.modules)) == Some(ps)
  {
    hide Fits, CodewordsOf, FinishedSymbol, ReadPayloads, Readable;
    PayloadsSurvive(ps, qr.version, qr.errorCorrectionLevel, qr.mask);
  }
}
