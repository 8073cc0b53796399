/** How much fits: the promises made for the low error correction level. */
module Capacity {
  import opened Bits
  import opened BitStrings
  import opened Results
  import opened Placement
  import opened Tables
  import opened Packings
  import opened Segments
  import opened SegmentStreams
  import opened QrCodes
  import opened Reader
  import opened Encoder
  import opened EndToEnd

  lemma LargestSymbol(ver: int)
    requires IsVersion(ver)
    ensures DataCodewords(ver, Low) <= DataCodewords(40, Low) == 2956
  {
    hide EccPerBlock, NumBlocks, RawDataModules, RawEntry;
    RawTable(ver);
    RawTable(40);
    LastVersions(40);
    if ver <= 35 {
      EarlierVersions(ver);
      TableFacts(ver, Low);
    } else {
      LastVersions(ver);
    }
  }

  lemma EarlierVersions(ver: int)
    requires 1 <= ver <= 35
    ensures RawEntry(ver) / 8 <= 2956
  {
  }

  lemma LastVersions(ver: int)
    requires 36 <= ver <= 40
    ensures EccPerBlock(ver, Low) == 30
    ensures NumBlocks(ver, Low) ==
            if ver == 36 then 20 else if ver == 37 then 21 else if ver == 38 then 22 else if ver == 39 then 24 else 25
    ensures RawEntry(ver) ==
            if ver == 36 then 24272 else if ver == 37 then 25568 else if ver == 38 then 26896 else if ver == 39 then 28256 else 29648
  {
  }

  /** The bits needed for a single segment. */
  lemma SingleSegment(seg: QrSegment, ver: int)
    requires IsVersion(ver)
    ensures var width := seg.mode.NumCharCountBits(ver);
            TotalBits([seg], ver) == if seg.numChars < Pow2(width) && 4 + width + |seg.data| <= INT_MAX then 4 + width + |seg.data| else -1
  {
    hide BitsOf, Pow2, Mode.NumCharCountBits;
    AllBitsNone(ver);
    assert [seg] == [] + [seg];
    AllBitsSnoc([], seg, ver);
    assert [seg][0] == seg;
  }

  lemma CountFieldBytes(ver: int)
    requires IsVersion(ver)
    ensures ByteMode.NumCharCountBits(ver) == if ver <= 9 then 8 else 16
    ensures Pow2(8) == 256 && Pow2(16) == 65536
  {
    Pow2Sum(8, 8);
  }

  /** Bytes fit some version at the low level exactly if there are at most 2953 of them. */
  lemma BinaryCapacity(data: seq<Byte>)
    ensures (exists v :: 1 <= v <= 40 && Fits([SegmentOf(Bytes(data))], v, Low)) <==> |data| <= 2953
  {
    hide TotalBits, DataCodewords, Unpack, Pow2, Mode.NumCharCountBits;
    var seg := SegmentOf(Bytes(data));
    if v :| 1 <= v <= 40 && Fits([seg], v, Low) {
      SingleSegment(seg, v);
      CountFieldBytes(v);
      LargestSymbol(v);
    }
    if |data| <= 2953 {
      SingleSegment(seg, 40);
      CountFieldBytes(40);
      LargestSymbol(40);
      assert Fits([seg], 40, Low);
    }
  }

  /**
  Encodes bytes in byte mode in the least version that fits, at the highest level that version then
  allows and with the best mask; at the low level this succeeds exactly for up to 2953 bytes.
  */
  method EncodeBinary(data: seq<Byte>, ecl: Ecc) returns (r: Result<QrCode>)
    ensures |data| > INT_MAX ==> r == Err(LengthError)
    ensures |data| <= INT_MAX ==>
              if exists v :: 1 <= v <= 40 && Fits([SegmentOf(Bytes(data))], v, ecl)
              then r.Ok? && Encodes(r.value, [SegmentOf(Bytes(data))], ecl, 1, 40, -1, true)
              else r == Err(DataTooLong)
    ensures r.Ok? ==>
              && Readable(Snapshot(r.value.modules))
              && ReadPayloads(Snapshot(r.value.modules)) == Some([Bytes(data)])
    ensures ecl == Low ==> (r.Ok? <==> |data| <= 2953)
  {
    hide Encodes, ReadPayloads, Readable, Fits, Unpack;
    BinaryCapacity(data);
    var segs := MakeBytes(data);
    if segs.Err? {
      return Err(segs.error);
    }
    assert segs.value == SegmentOf(Bytes(data));
    assert [segs.value] == SegmentsOf([Bytes(data)]);
    r := EncodeSegments([segs.value], ecl, 1, 40, -1, true);
    if r.Ok? {
      EncodesPayloads(r.value, [Bytes(data)], ecl, -1, true);
    }
  }

  lemma TextWidths()
    ensures Numeric.NumCharCountBits(40) == 14 && Alphanumeric.NumCharCountBits(40) == 13
    ensures Pow2(14) == 16384 && Pow2(13) == 8192
  {
    assert Pow2(7) == 128;
    Pow2Sum(7, 7);
    assert Pow2(14) == 2 * Pow2(13);
  }

  /** Any text of up to 2953 bytes fits the largest symbol at the low level. */
  lemma TextCapacity(text: CString)
    requires |text| <= 2953
    ensures AllEncodable(PayloadsFor(text)) && Fits(SegmentsOf(PayloadsFor(text)), 40, Low)
  {
    hide TotalBits, DataCodewords, Unpack, Pow2, Mode.NumCharCountBits, Packing.Encode, Packing.BitLength,
      IsNumeric, IsAlphanumeric, NumericDigits, AlphanumericDigits;
    PayloadsForEncodable(text);
    var segs := SegmentsOf(PayloadsFor(text));
    LargestSymbol(40);
    TextWidths();
    if |text| == 0 {
      assert segs == [];
      NoSegments(40);
    } else {
      assert segs == [segs[0]];
      SingleSegment(segs[0], 40);
      CountFieldBytes(40);
      if IsNumeric(text) {
        NUMERIC.EncodeLength(NumericDigits(text));
        NumericLength(|text|);
      } else if IsAlphanumeric(text) {
        ALPHANUMERIC.EncodeLength(AlphanumericDigits(text));
        AlphanumericLength(|text|);
      }
    }
  }

  lemma NoSegments(ver: int)
    requires IsVersion(ver)
    ensures TotalBits([], ver) == 0
  {
    AllBitsNone(ver);
  }

  /**
  Encodes a text in the least version that fits, at the highest level that version then allows and
  with the best mask.  Every symbol made reads back as the text, and at the low level any text of up
  to 2953 bytes can be encoded.
  */
  method EncodeText(text: CString, ecl: Ecc) returns (r: Result<QrCode>)
    ensures AllEncodable(PayloadsFor(text))
    ensures if |text| > INT_MAX && !IsNumeric(text) && !IsAlphanumeric(text) then r == Err(LengthError)
            else if exists v :: 1 <= v <= 40 && Fits(SegmentsOf(PayloadsFor(text)), v, ecl)
            then r.Ok? && Encodes(r.value, SegmentsOf(PayloadsFor(text)), ecl, 1, 40, -1, true)
            else r == Err(DataTooLong)
    ensures r.Ok? ==>
              && Readable(Snapshot(r.value.modules))
              && ReadPayloads(Snapshot(r.value.modules)) == Some(PayloadsFor(text))
              && TextOf(PayloadsFor(text)) == text
    ensures ecl == Low && |text| <= 2953 ==> r.Ok?
  {
    hide Encodes, PayloadsFor, SegmentsOf, ReadPayloads, Readable, Fits, AllEncodable, IsNumeric, IsAlphanumeric;
    TextOfPayloads(text);
    if |text| <= 2953 {
      TextCapacity(text);
    }
    var segs := MakeSegments(text);
    if segs.Err? {
      return Err(segs.error);
    }
    r := EncodeSegments(segs.value, ecl, 1, 40, -1, true);
    if r.Ok? {
      EncodesPayloads(r.value, PayloadsFor(text), ecl, -1, true);
    }
  }
}
