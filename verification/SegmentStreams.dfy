/** The bit stream of a list of segments, and how a reader splits it up again. */
module SegmentStreams {
  import opened Bits
  import opened BitStrings
  import opened Results
  import opened Packings
  import opened Segments
  import opened Tables

  /** The character count fits the field of the version. */
  predicate CountFits(seg: QrSegment, ver: int)
    requires IsVersion(ver)
  {
    seg.numChars < Pow2(seg.mode.NumCharCountBits(ver))
  }

  /** Mode indicator, character count and data of one segment. */
  function SegmentBits(seg: QrSegment, ver: int): (bits: seq<bool>)
    requires IsVersion(ver)
  {
    BitsOf(seg.mode.ModeBits(), 4) + BitsOf(seg.numChars, seg.mode.NumCharCountBits(ver)) + seg.data
  }

  /** The width of the character count field by mode and range of versions (table 3 of ISO/IEC 18004:2015). */
  function HeaderWidth(mode: Mode, ver: int): (w: nat)
  {
    var range := if ver <= 9 then 0 else if ver <= 26 then 1 else 2;
    match mode
    case Numeric => 10 + 2 * range
    case Alphanumeric => 9 + 2 * range
    case ByteMode => if range == 0 then 8 else 16
    case Kanji => 8 + 2 * range
    case Eci => 0
  }

  /** A segment begins with its mode indicator, and its count follows in a field of the tabulated width. */
  lemma SegmentHeader(seg: QrSegment, ver: int)
    requires IsVersion(ver) && CountFits(seg, ver)
    ensures var bits, w := SegmentBits(seg, ver), HeaderWidth(seg.mode, ver);
            && |bits| == 4 + w + |seg.data|
            && bits[..4] == (match seg.mode
                             case Numeric => [false, false, false, true]
                             case Alphanumeric => [false, false, true, false]
                             case ByteMode => [false, true, false, false]
                             case Kanji => [true, false, false, false]
                             case Eci => [false, true, true, true])
            && ValueOf(bits[4..4 + w]) == seg.numChars
            && bits[4 + w..] == seg.data
  {
    hide BitsOf, ValueOf, Pow2, Mode.NumCharCountBits, HeaderWidth;
    var bits, w := SegmentBits(seg, ver), HeaderWidth(seg.mode, ver);
    WidthIs(seg.mode, ver);
    ModeIndicator(seg.mode);
    ValueOfBitsOf(seg.numChars, w);
    assert bits[..4] == BitsOf(seg.mode.ModeBits(), 4);
    assert bits[4..4 + w] == BitsOf(seg.numChars, w);
  }

  lemma WidthIs(mode: Mode, ver: int)
    requires IsVersion(ver)
    ensures mode.NumCharCountBits(ver) == HeaderWidth(mode, ver)
  {
  }

  lemma ModeIndicator(mode: Mode)
    ensures BitsOf(mode.ModeBits(), 4) == match mode
                                          case Numeric => [false, false, false, true]
                                          case Alphanumeric => [false, false, true, false]
                                          case ByteMode => [false, true, false, false]
                                          case Kanji => [true, false, false, false]
                                          case Eci => [false, true, true, true]
  {
  }

  /** The concatenation of all segments. */
  function AllBits(segs: seq<QrSegment>, ver: int): (bits: seq<bool>)
    requires IsVersion(ver)
  {
    if |segs| == 0 then [] else AllBits(segs[..|segs| - 1], ver) + SegmentBits(segs[|segs| - 1], ver)
  }

  lemma AllBitsSnoc(segs: seq<QrSegment>, seg: QrSegment, ver: int)
    requires IsVersion(ver)
    ensures AllBits(segs + [seg], ver) == AllBits(segs, ver) + SegmentBits(seg, ver)
  {
    assert (segs + [seg])[..|segs|] == segs;
  }

  lemma {:induction false} AllBitsCons(seg: QrSegment, segs: seq<QrSegment>, ver: int)
    requires IsVersion(ver)
    ensures AllBits([seg] + segs, ver) == SegmentBits(seg, ver) + AllBits(segs, ver)
  {
    hide SegmentBits, AllBits;
    AllBitsNone(ver);
    if |segs| == 0 {
      assert [seg] + segs == [] + [seg];
      AllBitsSnoc([], seg, ver);
    } else {
      var n := |segs| - 1;
      AllBitsCons(seg, segs[..n], ver);
      assert segs == segs[..n] + [segs[n]];
      assert [seg] + segs == ([seg] + segs[..n]) + [segs[n]];
      AllBitsSnoc(segs[..n], segs[n], ver);
      AllBitsSnoc([seg] + segs[..n], segs[n], ver);
    }
  }

  lemma AllBitsNone(ver: int)
    requires IsVersion(ver)
    ensures AllBits([], ver) == []
  {
  }

  predicate AllCountsFit(segs: seq<QrSegment>, ver: int)
    requires IsVersion(ver)
  {
    forall i :: 0 <= i < |segs| ==> CountFits(segs[i], ver)
  }

  /** The number of bits needed, or -1 if a count does not fit its field or the sum exceeds an int. */
  function TotalBits(segs: seq<QrSegment>, ver: int): (r: int)
    requires IsVersion(ver)
  {
    if AllCountsFit(segs, ver) && |AllBits(segs, ver)| <= INT_MAX then |AllBits(segs, ver)| else -1
  }

  lemma {:induction false} AllBitsGrow(segs: seq<QrSegment>, k: nat, ver: int)
    requires IsVersion(ver) && k <= |segs|
    ensures |AllBits(segs[..k], ver)| <= |AllBits(segs, ver)|
  {
    if k == |segs| {
      assert segs[..k] == segs;
    } else {
      var n := |segs| - 1;
      AllBitsGrow(segs[..n], k, ver);
      assert segs[..n][..k] == segs[..k];
    }
  }

  /** Adds up the segment lengths without ever exceeding the range of an int. */
  method GetTotalBits(segs: seq<QrSegment>, ver: int) returns (result: int)
    requires IsVersion(ver)
    ensures result == TotalBits(segs, ver)
    ensures -1 <= result <= INT_MAX
  {
    hide AllBits, Pow2;
    result := 0;
    AllBitsNone(ver);
    for i := 0 to |segs|
      invariant 0 <= result <= INT_MAX && result == |AllBits(segs[..i], ver)|
      invariant forall k :: 0 <= k < i ==> CountFits(segs[k], ver)
    {
      var seg := segs[i];
      assert segs[..i + 1] == segs[..i] + [seg];
      AllBitsSnoc(segs[..i], seg, ver);
      AllBitsGrow(segs, i + 1, ver);
      var ccbits := seg.mode.NumCharCountBits(ver);
      if seg.numChars >= Pow2(ccbits) {
        return -1;
      }
      if 4 + ccbits > INT_MAX - result {
        return -1;
      }
      result := result + 4 + ccbits;
      if |seg.data| > INT_MAX - result {
        return -1;
      }
      result := result + |seg.data|;
    }
    assert segs[..|segs|] == segs;
  }

  //////////////////////////////////////////////////////////////////////////////
  // The reader
  //////////////////////////////////////////////////////////////////////////////

  function ModeOf(indicator: nat): (m: Option<Mode>)
  {
    if indicator == 1 then Some(Numeric)
    else if indicator == 2 then Some(Alphanumeric)
    else if indicator == 4 then Some(ByteMode)
    else if indicator == 8 then Some(Kanji)
    else if indicator == 7 then Some(Eci)
    else None
  }

  /** The segment at the start of a bit string, and what follows it. */
  function ParseOne(bits: seq<bool>, ver: int): (r: Option<(QrSegment, seq<bool>)>)
    requires IsVersion(ver) && |bits| >= 4
    ensures r.Some? ==> |r.value.1| < |bits|
  {
    match ModeOf(ValueOf(bits[..4]))
    case None => None
    case Some(mode) =>
      var width := mode.NumCharCountBits(ver);
      if |bits| < 4 + width then None
      else
        var count, body := ValueOf(bits[4..4 + width]), bits[4 + width..];
        var len := DataLength(mode, count, body);
        if len > |body| || (mode == Eci && len == 0) then None
        else Some((QrSegment(mode, count, body[..len]), body[len..]))
  }

  /** A terminator ends the stream: four zero bits, or fewer than four bits left. */
  predicate Ended(bits: seq<bool>)
  {
    |bits| < 4 || ValueOf(bits[..4]) == 0
  }

  function Parse(bits: seq<bool>, ver: int): (r: Option<seq<QrSegment>>)
    requires IsVersion(ver)
    decreases |bits|
  {
    if Ended(bits) then Some([])
    else
      match ParseOne(bits, ver)
      case None => None
      case Some((seg, rest)) =>
        match Parse(rest, ver)
        case None => None
        case Some(segs) => Some([seg] + segs)
  }

  lemma DataLengthPrefix(seg: QrSegment, rest: seq<bool>)
    requires WellFormed(seg)
    ensures DataLength(seg.mode, seg.numChars, seg.data + rest) == |seg.data|
  {
  }

  /** A well-formed segment is parsed back exactly, whatever follows it. */
  lemma ParseOneInverts(seg: QrSegment, rest: seq<bool>, ver: int)
    requires IsVersion(ver) && WellFormed(seg) && CountFits(seg, ver)
    ensures var bits := SegmentBits(seg, ver) + rest;
            |bits| >= 4 && !Ended(bits) && ParseOne(bits, ver) == Some((seg, rest))
  {
    hide BitsOf, ValueOf, Pow2, DataLength, WellFormed, Mode.NumCharCountBits;
    var mode, width := seg.mode, seg.mode.NumCharCountBits(ver);
    var bits := SegmentBits(seg, ver) + rest;
    ModeFits(mode);
    ValueOfBitsOf(mode.ModeBits(), 4);
    ValueOfBitsOf(seg.numChars, width);
    assert bits[..4] == BitsOf(mode.ModeBits(), 4);
    assert bits[4..4 + width] == BitsOf(seg.numChars, width);
    var body := bits[4 + width..];
    assert body == seg.data + rest;
    DataLengthPrefix(seg, rest);
    assert body[..|seg.data|] == seg.data && body[|seg.data|..] == rest;
    EciHasData(seg);
  }

  lemma ModeFits(mode: Mode)
    ensures mode.ModeBits() < Pow2(4) && ModeOf(mode.ModeBits()) == Some(mode)
  {
    assert Pow2(4) == 16;
  }

  lemma EciHasData(seg: QrSegment)
    requires WellFormed(seg)
    ensures seg.mode == Eci ==> |seg.data| > 0
  {
  }

  /** The segments of any stream are parsed back exactly, up to the terminator. */
  lemma {:induction false} ParseInverts(segs: seq<QrSegment>, tail: seq<bool>, ver: int)
    requires IsVersion(ver) && Ended(tail)
    requires forall i :: 0 <= i < |segs| ==> WellFormed(segs[i]) && CountFits(segs[i], ver)
    ensures Parse(AllBits(segs, ver) + tail, ver) == Some(segs)
    decreases |segs|
  {
    hide AllBits, SegmentBits, ParseOne, Ended, WellFormed, CountFits;
    if |segs| == 0 {
      AllBitsNone(ver);
      assert AllBits(segs, ver) + tail == tail;
    } else {
      var rest := AllBits(segs[1..], ver) + tail;
      ParseInverts(segs[1..], tail, ver);
      assert segs == [segs[0]] + segs[1..];
      AllBitsCons(segs[0], segs[1..], ver);
      assert AllBits(segs, ver) + tail == SegmentBits(segs[0], ver) + rest;
      ParseOneInverts(segs[0], rest, ver);
    }
  }
}
