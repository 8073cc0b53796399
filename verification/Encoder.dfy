/** From segments to a symbol: version and level choice, padding and packing (sections 7.4.10 and 7.5 of ISO/IEC 18004:2015). */
module Encoder {
  import opened Arithmetic
  import opened Bits
  import opened BitStrings
  import opened Results
  import opened Placement
  import opened Tables
  import opened Segments
  import opened SegmentStreams
  import opened FunctionPatterns
  import opened Masking
  import opened QrCodes

  //////////////////////////////////////////////////////////////////////////////
  // Padding
  //////////////////////////////////////////////////////////////////////////////

  /** A terminator of up to four zero bits. */
  function Terminated(bits: seq<bool>, capacity: nat): (r: seq<bool>)
    requires |bits| <= capacity
  {
    bits + BitsOf(0, Min(4, capacity - |bits|))
  }

  /** Zero bits up to a byte boundary. */
  function Aligned(bits: seq<bool>): (r: seq<bool>)
    ensures |r| % 8 == 0
  {
    bits + BitsOf(0, (8 - |bits| % 8) % 8)
  }

  /** The alternating pad bytes. */
  function PadBytes(n: nat): (r: seq<Byte>)
    ensures |r| == n
  {
    seq(n, i => if i % 2 == 0 then 0xEC else 0x11)
  }

  /** The whole data bit string of a symbol. */
  function Padded(bits: seq<bool>, capacity: nat): (r: seq<bool>)
    requires |bits| <= capacity && capacity % 8 == 0
    ensures |r| == capacity
  {
    var aligned := Aligned(Terminated(bits, capacity));
    PaddingFits(bits, capacity);
    aligned + Unpack(PadBytes((capacity - |aligned|) / 8))
  }

  lemma PaddingFits(bits: seq<bool>, capacity: nat)
    requires |bits| <= capacity && capacity % 8 == 0
    ensures |Aligned(Terminated(bits, capacity))| <= capacity
  {
  }

  lemma {:induction false} ZeroBits(n: nat)
    ensures forall i :: 0 <= i < n ==> !BitsOf(0, n)[i]
  {
    if n != 0 {
      ZeroBits(n - 1);
    }
  }

  lemma {:induction false} ZeroValue(bits: seq<bool>)
    requires forall i :: 0 <= i < |bits| ==> !bits[i]
    ensures ValueOf(bits) == 0
  {
    if |bits| != 0 {
      ZeroValue(bits[..|bits| - 1]);
    }
  }

  /** What follows the data in the padded string reads as the end of the stream. */
  lemma PaddingEnds(bits: seq<bool>, capacity: nat)
    requires |bits| <= capacity && capacity % 8 == 0
    ensures Padded(bits, capacity)[..|bits|] == bits
    ensures Ended(Padded(bits, capacity)[|bits|..])
  {
    hide BitsOf, Unpack, ValueOf;
    var all := Padded(bits, capacity);
    var tail := all[|bits|..];
    if |tail| >= 4 {
      ZeroBits(4);
      assert tail[..4] == BitsOf(0, 4);
      ZeroValue(tail[..4]);
    }
  }

  lemma PadBytesSnoc(n: nat)
    ensures PadBytes(n + 1) == PadBytes(n) + [if n % 2 == 0 then 0xEC else 0x11]
  {
  }

  lemma PadByteToggles()
    ensures Xor(0xEC, Xor(0xEC, 0x11)) == 0x11 && Xor(0x11, Xor(0xEC, 0x11)) == 0xEC
  {
    hide Xor;
    XorAssoc(0xEC, 0xEC, 0x11);
    XorSelf(0xEC);
    XorZero(0x11);
    XorComm(0xEC, 0x11);
    XorAssoc(0x11, 0x11, 0xEC);
    XorSelf(0x11);
    XorZero(0xEC);
  }

  /** Appends alternating pad bytes up to the capacity. */
  method AppendPadBytes(bb: BitBuffer, dataCapacityBits: nat)
    requires |bb.bits| <= dataCapacityBits && |bb.bits| % 8 == 0 && dataCapacityBits % 8 == 0
    modifies bb
    ensures bb.bits == old(bb.bits) + Unpack(PadBytes((dataCapacityBits - |old(bb.bits)|) / 8))
  {
    hide BitsOf, Unpack, Xor, PadBytes, Pow2;
    ghost var aligned := bb.bits;
    PadByteToggles();
    ByteFits();
    PadBytesNone();
    var padByte: nat := 0xEC;
    ghost var n: nat := 0;
    while |bb.bits| < dataCapacityBits
      invariant bb.bits == aligned + Unpack(PadBytes(n))
      invariant |bb.bits| == |aligned| + 8 * n && |bb.bits| <= dataCapacityBits
      invariant padByte == if n % 2 == 0 then 0xEC else 0x11
      decreases dataCapacityBits - |bb.bits|
    {
      var appended := bb.AppendBits(padByte, 8);
      PadBytesSnoc(n);
      UnpackSnoc(PadBytes(n), padByte);
      n := n + 1;
      padByte := Xor(padByte, Xor(0xEC, 0x11));
    }
  }

  lemma ByteFits()
    ensures Pow2(8) == 256
  {
  }

  lemma PadBytesNone()
    ensures PadBytes(0) == [] && Unpack(PadBytes(0)) == []
  {
  }

  /** Adds terminator, alignment and pad bytes up to the capacity; the alignment check never fails. */
  method Pad(bb: BitBuffer, dataCapacityBits: nat)
    requires |bb.bits| <= dataCapacityBits && dataCapacityBits % 8 == 0
    modifies bb
    ensures bb.bits == Padded(old(bb.bits), dataCapacityBits)
  {
    hide BitsOf, Unpack, PadBytes;
    ghost var bits := bb.bits;
    PaddingFits(bits, dataCapacityBits);
    var terminator := bb.AppendBits(0, Min(4, dataCapacityBits - |bb.bits|));
    assert bb.bits == Terminated(bits, dataCapacityBits);
    var filler := bb.AppendBits(0, (8 - |bb.bits| % 8) % 8);
    assert |bb.bits| % 8 == 0;
    AppendPadBytes(bb, dataCapacityBits);
  }

  //////////////////////////////////////////////////////////////////////////////
  // Version and level
  //////////////////////////////////////////////////////////////////////////////

  /** The segments fit the data codewords of a version and level. */
  predicate Fits(segs: seq<QrSegment>, ver: int, ecl: Ecc)
    requires IsVersion(ver)
  {
    TotalBits(segs, ver) != -1 && TotalBits(segs, ver) <= 8 * DataCodewords(ver, ecl)
  }

  lemma CapacityNonnegative(ver: int, ecl: Ecc)
    requires IsVersion(ver)
    ensures DataCodewords(ver, ecl) >= 0
  {
    hide EccPerBlock, NumBlocks, RawDataModules;
    TableFacts(ver, ecl);
  }

  /** The data codewords of segments that fit. */
  ghost function CodewordsOf(segs: seq<QrSegment>, ver: int, ecl: Ecc): (r: seq<Byte>)
    requires IsVersion(ver) && Fits(segs, ver, ecl)
    ensures |r| == DataCodewords(ver, ecl)
  {
    DataBitsFit(segs, ver, ecl);
    PackToCapacity(AllBits(segs, ver), DataCodewords(ver, ecl))
  }

  /** Padded to the given number of bytes, and packed. */
  function PackToCapacity(bits: seq<bool>, n: nat): (r: seq<Byte>)
    requires |bits| <= 8 * n
    ensures |r| == n
  {
    Pack(Padded(bits, 8 * n))
  }

  lemma AlignedLength(bits: seq<bool>, n: nat)
    requires |bits| <= 8 * n
    ensures |Aligned(Terminated(bits, 8 * n))| == 8 * Min(n, (|bits| + 11) / 8)
  {
    hide BitsOf;
  }

  lemma AlignedZeros(bits: seq<bool>, capacity: nat)
    requires |bits| <= capacity
    ensures bits <= Aligned(Terminated(bits, capacity))
    ensures forall i :: |bits| <= i < |Aligned(Terminated(bits, capacity))| ==> !Aligned(Terminated(bits, capacity))[i]
  {
    hide BitsOf;
    ZeroBits(Min(4, capacity - |bits|));
    ZeroBits((8 - |Terminated(bits, capacity)| % 8) % 8);
  }

  /** A byte string whose bits end with those of p ends with p. */
  lemma TailByte(r: seq<Byte>, head: seq<bool>, u: nat, p: seq<Byte>, k: nat)
    requires Unpack(r) == head + Unpack(p) && |head| == 8 * u && u <= k < |r|
    ensures |r| == u + |p| && r[k] == p[k - u]
  {
    hide Unpack, BitsOf, ValueOf, Pow2;
    assert |Unpack(r)| == 8 * |r| && |Unpack(p)| == 8 * |p|;
    UnpackByte(r, k);
    UnpackByte(p, k - u);
    assert (head + Unpack(p))[8 * k..8 * k + 8] == Unpack(p)[8 * (k - u)..8 * (k - u) + 8];
    ByteFits();
    ValueOfBitsOf(r[k], 8);
    ValueOfBitsOf(p[k - u], 8);
  }

  /**
  The codewords hold a bit string: its bits, zero bits up to the end of the byte in which a
  terminator of four bits ends, and alternately 0xEC and 0x11 in all remaining bytes.
  */
  ghost predicate HoldsPadded(r: seq<Byte>, bits: seq<bool>)
  {
    var used := Min(|r|, (|bits| + 11) / 8);
    && |bits| <= 8 * used
    && Unpack(r)[..|bits|] == bits
    && (forall i :: |bits| <= i < 8 * used ==> !Unpack(r)[i])
    && (forall k :: used <= k < |r| ==> r[k] == if (k - used) % 2 == 0 then 0xEC else 0x11)
  }

  lemma PaddingContents(bits: seq<bool>, n: nat)
    requires |bits| <= 8 * n
    ensures HoldsPadded(PackToCapacity(bits, n), bits)
  {
    hide Unpack, Aligned, Terminated, Pack;
    var r, used := PackToCapacity(bits, n), Min(n, (|bits| + 11) / 8);
    var aligned := Aligned(Terminated(bits, 8 * n));
    AlignedLength(bits, n);
    AlignedZeros(bits, 8 * n);
    UnpackPack(Padded(bits, 8 * n));
    assert Unpack(r) == aligned + Unpack(PadBytes(n - used));
    forall k | used <= k < n
      ensures r[k] == if (k - used) % 2 == 0 then 0xEC else 0x11
    {
      TailByte(r, aligned, used, PadBytes(n - used), k);
    }
  }

  /** The data codewords of segments: the bit stream, the terminator and the pad bytes. */
  lemma CodewordsContents(segs: seq<QrSegment>, ver: int, ecl: Ecc)
    requires IsVersion(ver) && Fits(segs, ver, ecl)
    ensures HoldsPadded(CodewordsOf(segs, ver, ecl), AllBits(segs, ver))
  {
    hide AllBits, DataCodewords, Fits, HoldsPadded, PackToCapacity;
    DataBitsFit(segs, ver, ecl);
    PaddingContents(AllBits(segs, ver), DataCodewords(ver, ecl));
  }

  lemma DataBitsFit(segs: seq<QrSegment>, ver: int, ecl: Ecc)
    requires IsVersion(ver) && Fits(segs, ver, ecl)
    ensures 0 <= |AllBits(segs, ver)| <= 8 * DataCodewords(ver, ecl)
  {
    hide AllBits, DataCodewords;
  }

  /** The least version of a range that the segments fit; above the range if there is none. */
  method FindVersion(segs: seq<QrSegment>, ecl: Ecc, minVersion: int, maxVersion: int)
    returns (version: int, dataUsedBits: int)
    requires MIN_VERSION <= minVersion <= maxVersion <= MAX_VERSION
    ensures minVersion <= version <= maxVersion + 1
    ensures version <= maxVersion ==> Fits(segs, version, ecl) && dataUsedBits == TotalBits(segs, version)
    ensures forall v :: minVersion <= v < version ==> !Fits(segs, v, ecl)
  {
    hide TotalBits, DataCodewords;
    version := minVersion;
    while true
      invariant minVersion <= version <= maxVersion
      invariant forall v :: minVersion <= v < version ==> !Fits(segs, v, ecl)
      decreases maxVersion - version
    {
      var dataCapacityBits := DataCodewords(version, ecl) * 8;
      dataUsedBits := GetTotalBits(segs, version);
      if dataUsedBits != -1 && dataUsedBits <= dataCapacityBits {
        return;
      }
      if version >= maxVersion {
        version := version + 1;
        return;
      }
      version := version + 1;
    }
  }

  /** The highest level that still fits, but at least the requested one. */
  method BoostLevel(segs: seq<QrSegment>, version: int, ecl: Ecc, boostEcl: bool, dataUsedBits: int)
    returns (level: Ecc)
    requires IsVersion(version) && Fits(segs, version, ecl) && dataUsedBits == TotalBits(segs, version)
    ensures Fits(segs, version, level) && level.Rank() >= ecl.Rank()
    ensures !boostEcl ==> level == ecl
    ensures boostEcl ==> forall e: Ecc :: e.Rank() > level.Rank() ==> !Fits(segs, version, e)
  {
    hide TotalBits, DataCodewords;
    level := ecl;
    var levels := [Medium, Quartile, High];
    for i := 0 to |levels|
      invariant Fits(segs, version, level)
      invariant !boostEcl ==> level == ecl
      invariant level == ecl || (boostEcl && level.Rank() <= i)
      invariant boostEcl ==> forall e: Ecc :: level.Rank() < e.Rank() <= i ==> !Fits(segs, version, e)
      invariant boostEcl && ecl.Rank() <= i ==> level.Rank() >= ecl.Rank()
    {
      var newEcl := levels[i];
      if boostEcl && dataUsedBits <= DataCodewords(version, newEcl) * 8 {
        level := newEcl;
      }
    }
  }

  //////////////////////////////////////////////////////////////////////////////
  // Encoding
  //////////////////////////////////////////////////////////////////////////////

  /** Concatenates the segments; no field overflows and the length agrees with the sum computed before. */
  method Concatenate(segs: seq<QrSegment>, version: int) returns (bb: BitBuffer)
    requires IsVersion(version) && TotalBits(segs, version) != -1
    ensures fresh(bb) && bb.bits == AllBits(segs, version)
  {
    hide AllBits, BitsOf, Pow2;
    bb := new BitBuffer();
    AllBitsNone(version);
    for i := 0 to |segs|
      invariant bb.bits == AllBits(segs[..i], version)
    {
      var seg := segs[i];
      assert CountFits(seg, version);
      FieldFits(seg, version);
      var mode := bb.AppendBits(seg.mode.ModeBits(), 4);
      var count := bb.AppendBits(seg.numChars, seg.mode.NumCharCountBits(version));
      bb.bits := bb.bits + seg.data;
      assert segs[..i + 1] == segs[..i] + [seg];
      AllBitsSnoc(segs[..i], seg, version);
    }
    assert segs[..|segs|] == segs;
  }

  lemma FieldFits(seg: QrSegment, version: int)
    requires IsVersion(version) && CountFits(seg, version)
    ensures seg.mode.ModeBits() < Pow2(4) && seg.numChars < 0x1_0000_0000
  {
    ModeFits(seg.mode);
    Packings.FieldFitsWord(seg.mode.NumCharCountBits(version));
  }

  /** The data codewords of the segments. */
  method ComputeCodewords(segs: seq<QrSegment>, version: int, ecl: Ecc) returns (dataCodewords: seq<Byte>)
    requires IsVersion(version) && Fits(segs, version, ecl)
    ensures dataCodewords == CodewordsOf(segs, version, ecl)
  {
    hide AllBits, DataCodewords, Padded, Pack;
    var bb := Concatenate(segs, version);
    assert |bb.bits| == TotalBits(segs, version);
    CapacityNonnegative(version, ecl);
    var dataCapacityBits := DataCodewords(version, ecl) * 8;
    assert !(|bb.bits| > dataCapacityBits);
    Pad(bb, dataCapacityBits);
    dataCodewords := PackBits(bb.bits);
  }

  /**
  Encodes segments.  Arguments out of range and data that fits no permitted version are refused;
  otherwise the symbol has the least fitting version and, with boosting, the highest fitting level.
  */
  method EncodeSegments(segs: seq<QrSegment>, ecl: Ecc, minVersion: int, maxVersion: int, mask: int, boostEcl: bool)
    returns (r: Result<QrCode>)
    ensures !(MIN_VERSION <= minVersion <= maxVersion <= MAX_VERSION) || mask < -1 || mask > 7 ==> r == Err(InvalidArgument)
    ensures MIN_VERSION <= minVersion <= maxVersion <= MAX_VERSION && -1 <= mask <= 7 ==>
              if exists v :: minVersion <= v <= maxVersion && Fits(segs, v, ecl)
              then r.Ok? && Encodes(r.value, segs, ecl, minVersion, maxVersion, mask, boostEcl)
              else r == Err(DataTooLong)
  {
    hide Fits, CodewordsOf, BaseGrid, FinishedSymbol, BestMask, FunctionMap;
    if !(MIN_VERSION <= minVersion <= maxVersion <= MAX_VERSION) || mask < -1 || mask > 7 {
      return Err(InvalidArgument);
    }
    var version, dataUsedBits := FindVersion(segs, ecl, minVersion, maxVersion);
    if version > maxVersion {
      return Err(DataTooLong);
    }
    var level := BoostLevel(segs, version, ecl, boostEcl, dataUsedBits);
    var dataCodewords := ComputeCodewords(segs, version, level);
    r := MakeQrCode(version, level, dataCodewords, mask);
  }

  /** A finished symbol encodes the segments under the given parameters. */
  ghost predicate Encodes(qr: QrCode, segs: seq<QrSegment>, ecl: Ecc, minVersion: int, maxVersion: int, mask: int, boostEcl: bool)
    requires MIN_VERSION <= minVersion <= maxVersion <= MAX_VERSION
    reads qr, qr.modules
  {
    var level := qr.errorCorrectionLevel;
    && qr.Valid()
    && minVersion <= qr.version <= maxVersion && Fits(segs, qr.version, level)
    && (forall v :: minVersion <= v < qr.version ==> !Fits(segs, v, ecl))
    && level.Rank() >= ecl.Rank() && (!boostEcl ==> level == ecl)
    && (boostEcl ==> forall e: Ecc :: e.Rank() > level.Rank() ==> !Fits(segs, qr.version, e))
    && 0 <= qr.mask < 8 && (mask >= 0 ==> qr.mask == mask)
    && var data := CodewordsOf(segs, qr.version, level);
       && (mask == -1 ==> BestMask(BaseGrid(qr.version, level, data), FunctionMap(qr.version), level, qr.mask))
       && Snapshot(qr.modules) == FinishedSymbol(qr.version, level, data, qr.mask)
  }
}
