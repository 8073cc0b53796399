/** Capacities of the 40 versions and 4 error correction levels (tables 1 and 9 of ISO/IEC 18004:2015). */
module Tables {
  import opened Arithmetic
  import opened Results

  const MIN_VERSION := 1
  const MAX_VERSION := 40

  datatype Ecc = Low | Medium | Quartile | High
  {
    function Rank(): (r: nat)
    {
      match this
      case Low => 0
      case Medium => 1
      case Quartile => 2
      case High => 3
    }
  }

  predicate IsVersion(ver: int)
  {
    MIN_VERSION <= ver <= MAX_VERSION
  }

  // Error correction codewords per block and number of blocks, by version; index 0 is not used.

  const ECC_LOW: seq<int> :=
    [-1, 7, 10, 15, 20, 26, 18, 20, 24, 30, 18, 20, 24, 26, 30, 22, 24, 28, 30, 28, 28, 28, 28, 30, 30, 26, 28, 30, 30, 30, 30, 30, 30, 30, 30, 30, 30, 30, 30, 30, 30]

  const ECC_MEDIUM: seq<int> :=
    [-1, 10, 16, 26, 18, 24, 16, 18, 22, 22, 26, 30, 22, 22, 24, 24, 28, 28, 26, 26, 26, 26, 28, 28, 28, 28, 28, 28, 28, 28, 28, 28, 28, 28, 28, 28, 28, 28, 28, 28, 28]

  const ECC_QUARTILE: seq<int> :=
    [-1, 13, 22, 18, 26, 18, 24, 18, 22, 20, 24, 28, 26, 24, 20, 30, 24, 28, 28, 26, 30, 28, 30, 30, 30, 30, 28, 30, 30, 30, 30, 30, 30, 30, 30, 30, 30, 30, 30, 30, 30]

  const ECC_HIGH: seq<int> :=
    [-1, 17, 28, 22, 16, 22, 28, 26, 26, 24, 28, 24, 28, 22, 24, 24, 30, 28, 28, 26, 28, 30, 24, 30, 30, 30, 30, 30, 30, 30, 30, 30, 30, 30, 30, 30, 30, 30, 30, 30, 30]

  const BLOCKS_LOW: seq<int> :=
    [-1, 1, 1, 1, 1, 1, 2, 2, 2, 2, 4, 4, 4, 4, 4, 6, 6, 6, 6, 7, 8, 8, 9, 9, 10, 12, 12, 12, 13, 14, 15, 16, 17, 18, 19, 19, 20, 21, 22, 24, 25]

  const BLOCKS_MEDIUM: seq<int> :=
    [-1, 1, 1, 1, 2, 2, 4, 4, 4, 5, 5, 5, 8, 9, 9, 10, 10, 11, 13, 14, 16, 17, 17, 18, 20, 21, 23, 25, 26, 28, 29, 31, 33, 35, 37, 38, 40, 43, 45, 47, 49]

  const BLOCKS_QUARTILE: seq<int> :=
    [-1, 1, 1, 2, 2, 4, 4, 6, 6, 8, 8, 8, 10, 12, 16, 12, 17, 16, 18, 21, 20, 23, 23, 25, 27, 29, 34, 34, 35, 38, 40, 43, 45, 48, 51, 53, 56, 59, 62, 65, 68]

  const BLOCKS_HIGH: seq<int> :=
    [-1, 1, 1, 2, 4, 4, 4, 5, 6, 8, 8, 11, 11, 16, 16, 18, 16, 19, 21, 25, 25, 25, 34, 30, 32, 35, 37, 40, 42, 45, 48, 51, 54, 57, 60, 63, 66, 70, 74, 77, 81]

  function EccPerBlock(ver: int, ecl: Ecc): (n: int)
    requires IsVersion(ver)
  {
    match ecl
    case Low => ECC_LOW[ver]
    case Medium => ECC_MEDIUM[ver]
    case Quartile => ECC_QUARTILE[ver]
    case High => ECC_HIGH[ver]
  }

  function NumBlocks(ver: int, ecl: Ecc): (n: int)
    requires IsVersion(ver)
  {
    match ecl
    case Low => BLOCKS_LOW[ver]
    case Medium => BLOCKS_MEDIUM[ver]
    case Quartile => BLOCKS_QUARTILE[ver]
    case High => BLOCKS_HIGH[ver]
  }

  function NumAlign(ver: int): (n: int)
  {
    if ver < 2 then 0 else ver / 7 + 2
  }

  /** The number of modules left for codewords, by the closed formula. */
  function RawDataModules(ver: int): (n: int)
  {
    (16 * ver + 128) * ver + 64
    - (if ver >= 2 then (25 * NumAlign(ver) - 10) * NumAlign(ver) - 55 else 0)
    - (if ver >= 7 then 36 else 0)
  }

  /** The number of modules left for codewords, version by version. */
  const RAW_DATA_MODULES: seq<int> :=
    [0, 208, 359, 567, 807, 1079, 1383, 1568, 1936, 2336, 2768, 3232, 3728, 4256, 4651, 5243, 5867, 6523, 7211, 7931, 8683, 9252, 10068, 10916, 11796, 12708, 13652, 14628, 15371, 16411, 17483, 18587, 19723, 20891, 22091, 23008, 24272, 25568, 26896, 28256, 29648]

  function RawEntry(ver: int): (n: int)
    requires IsVersion(ver)
  {
    RAW_DATA_MODULES[ver]
  }

  lemma RawTable(ver: int)
    requires IsVersion(ver)
    ensures RawDataModules(ver) == RawEntry(ver)
  {
    if ver < 7 {
      assert ver >= 2 ==> NumAlign(ver) == 2;
    } else if ver < 14 {
      assert NumAlign(ver) == 3;
    } else if ver < 21 {
      assert NumAlign(ver) == 4;
    } else if ver < 28 {
      assert NumAlign(ver) == 5;
    } else if ver < 35 {
      assert NumAlign(ver) == 6;
    } else {
      assert NumAlign(ver) == 7;
    }
  }

  lemma BlocksLow(ver: int)
    requires IsVersion(ver)
    ensures 1 <= NumBlocks(ver, Low) <= 81
    ensures RawEntry(ver) < 8 * 155 * NumBlocks(ver, Low)
    ensures ver >= 5 ==> 8 * 30 * NumBlocks(ver, Low) <= RawEntry(ver)
  {
  }

  lemma EccLow(ver: int)
    requires IsVersion(ver)
    ensures 1 <= EccPerBlock(ver, Low) <= 30
  {
  }

  lemma BlocksMedium(ver: int)
    requires IsVersion(ver)
    ensures 1 <= NumBlocks(ver, Medium) <= 81
    ensures RawEntry(ver) < 8 * 155 * NumBlocks(ver, Medium)
    ensures ver >= 5 ==> 8 * 30 * NumBlocks(ver, Medium) <= RawEntry(ver)
  {
  }

  lemma EccMedium(ver: int)
    requires IsVersion(ver)
    ensures 1 <= EccPerBlock(ver, Medium) <= 30
  {
  }

  lemma BlocksQuartile(ver: int)
    requires IsVersion(ver)
    ensures 1 <= NumBlocks(ver, Quartile) <= 81
    ensures RawEntry(ver) < 8 * 155 * NumBlocks(ver, Quartile)
    ensures ver >= 5 ==> 8 * 30 * NumBlocks(ver, Quartile) <= RawEntry(ver)
  {
  }

  lemma EccQuartile(ver: int)
    requires IsVersion(ver)
    ensures 1 <= EccPerBlock(ver, Quartile) <= 30
  {
  }

  lemma BlocksHigh(ver: int)
    requires IsVersion(ver)
    ensures 1 <= NumBlocks(ver, High) <= 81
    ensures RawEntry(ver) < 8 * 155 * NumBlocks(ver, High)
    ensures ver >= 5 ==> 8 * 30 * NumBlocks(ver, High) <= RawEntry(ver)
  {
  }

  lemma EccHigh(ver: int)
    requires IsVersion(ver)
    ensures 1 <= EccPerBlock(ver, High) <= 30
  {
  }

  lemma SmallVersions(ver: int, ecl: Ecc)
    requires 1 <= ver <= 4
    ensures 8 * (NumBlocks(ver, ecl) * EccPerBlock(ver, ecl)) <= RawEntry(ver)
  {
    match ecl
    case Low =>
    case Medium =>
    case Quartile =>
    case High =>
  }

  /** For every version and level the codewords divide into blocks that the error correction code can handle. */
  lemma TableFacts(ver: int, ecl: Ecc)
    requires IsVersion(ver)
    ensures 1 <= EccPerBlock(ver, ecl) <= 30
    ensures NumBlocks(ver, ecl) >= 1
    ensures NumBlocks(ver, ecl) * EccPerBlock(ver, ecl) <= RawDataModules(ver) / 8 < 155 * NumBlocks(ver, ecl)
  {
    hide EccPerBlock, NumBlocks, RawDataModules, RawEntry;
    RawTable(ver);
    match ecl {
      case Low => BlocksLow(ver); EccLow(ver);
      case Medium => BlocksMedium(ver); EccMedium(ver);
      case Quartile => BlocksQuartile(ver); EccQuartile(ver);
      case High => BlocksHigh(ver); EccHigh(ver);
    }
    if ver <= 4 {
      SmallVersions(ver, ecl);
    } else {
      MulMonotone(NumBlocks(ver, ecl), EccPerBlock(ver, ecl), 30);
    }
  }

  /** The share of erroneous codewords that a level is meant to tolerate. */
  function TolerancePercent(ecl: Ecc): (p: nat)
  {
    match ecl
    case Low => 7
    case Medium => 15
    case Quartile => 25
    case High => 30
  }

  lemma ToleranceLow(ver: int)
    requires IsVersion(ver)
    ensures 7 * (RawEntry(ver) + 8 * NumBlocks(ver, Low)) < 400 * ((EccPerBlock(ver, Low) + 1) * NumBlocks(ver, Low))
  {
  }

  lemma ToleranceMedium(ver: int)
    requires IsVersion(ver)
    ensures 15 * (RawEntry(ver) + 8 * NumBlocks(ver, Medium)) < 400 * ((EccPerBlock(ver, Medium) + 1) * NumBlocks(ver, Medium))
  {
  }

  lemma ToleranceQuartile(ver: int)
    requires IsVersion(ver)
    ensures 25 * (RawEntry(ver) + 8 * NumBlocks(ver, Quartile)) < 400 * ((EccPerBlock(ver, Quartile) + 1) * NumBlocks(ver, Quartile))
  {
  }

  lemma ToleranceHigh(ver: int)
    requires IsVersion(ver)
    ensures 30 * (RawEntry(ver) + 8 * NumBlocks(ver, High)) < 400 * ((EccPerBlock(ver, High) + 1) * NumBlocks(ver, High))
  {
  }

  lemma ToleranceTable(ver: int, ecl: Ecc)
    requires IsVersion(ver)
    ensures TolerancePercent(ecl) * (RawDataModules(ver) + 8 * NumBlocks(ver, ecl))
            < 400 * ((EccPerBlock(ver, ecl) + 1) * NumBlocks(ver, ecl))
  {
    hide EccPerBlock, NumBlocks, RawDataModules, RawEntry;
    RawTable(ver);
    match ecl {
      case Low => ToleranceLow(ver);
      case Medium => ToleranceMedium(ver);
      case Quartile => ToleranceQuartile(ver);
      case High => ToleranceHigh(ver);
    }
  }

  lemma BlockAtMost(raw: nat, blocks: nat, len: nat)
    requires blocks >= 1 && len <= raw / 8 / blocks + 1
    ensures 8 * (blocks * len) <= raw + 8 * blocks
  {
    var q := raw / 8 / blocks;
    assert blocks * q <= raw / 8;
    MulMonotone(blocks, len, q + 1);
    assert blocks * (q + 1) == blocks * q + blocks;
  }

  lemma ScaleUp(p: nat, blocks: nat, len: nat, wrong: nat)
    requires 100 * wrong <= p * len
    ensures 400 * (blocks * (2 * wrong)) <= p * (8 * (blocks * len))
  {
    MulMonotone(8 * blocks, 100 * wrong, p * len);
    assert 8 * blocks * (p * len) == p * (8 * (blocks * len));
    assert 8 * blocks * (100 * wrong) == 400 * (blocks * (2 * wrong));
  }

  /** The tolerated share of any block, rounded down, is at most half its error correction codewords. */
  lemma ToleranceFits(ver: int, ecl: Ecc, len: nat, wrong: nat)
    requires IsVersion(ver) && NumBlocks(ver, ecl) >= 1 && RawDataModules(ver) >= 0
    requires len <= RawDataModules(ver) / 8 / NumBlocks(ver, ecl) + 1
    requires 100 * wrong <= TolerancePercent(ecl) * len
    ensures 2 * wrong <= EccPerBlock(ver, ecl)
  {
    hide EccPerBlock, NumBlocks, RawDataModules, TolerancePercent;
    var raw, blocks, ecc, p := RawDataModules(ver), NumBlocks(ver, ecl), EccPerBlock(ver, ecl), TolerancePercent(ecl);
    ToleranceTable(ver, ecl);
    BlockAtMost(raw, blocks, len);
    MulMonotone(p, 8 * (blocks * len), raw + 8 * blocks);
    ScaleUp(p, blocks, len, wrong);
    MulCancel(blocks, 2 * wrong, ecc + 1);
  }

  /** The number of data codewords of a symbol. */
  function DataCodewords(ver: int, ecl: Ecc): (n: int)
    requires IsVersion(ver)
  {
    RawDataModules(ver) / 8 - EccPerBlock(ver, ecl) * NumBlocks(ver, ecl)
  }

  //////////////////////////////////////////////////////////////////////////////
  // Error correction in total
  //////////////////////////////////////////////////////////////////////////////

  /** The error correction codewords of the 40 versions at level Low (table 9 of ISO/IEC 18004:2015). */
  const TOTAL_LOW: seq<int> :=
    [-1, 7, 10, 15, 20, 26, 36, 40, 48, 60, 72, 80, 96, 104, 120, 132, 144, 168, 180, 196, 224, 224,
     252, 270, 300, 312, 336, 360, 390, 420, 450, 480, 510, 540, 570, 570, 600, 630, 660, 720, 750]

  /** The error correction codewords of the 40 versions at level Medium (table 9 of ISO/IEC 18004:2015). */
  const TOTAL_MEDIUM: seq<int> :=
    [-1, 10, 16, 26, 36, 48, 64, 72, 88, 110, 130, 150, 176, 198, 216, 240, 280, 308, 338, 364, 416,
     442, 476, 504, 560, 588, 644, 700, 728, 784, 812, 868, 924, 980, 1036, 1064, 1120, 1204, 1260,
     1316, 1372]

  /** The error correction codewords of the 40 versions at level Quartile (table 9 of ISO/IEC 18004:2015). */
  const TOTAL_QUARTILE: seq<int> :=
    [-1, 13, 22, 36, 52, 72, 96, 108, 132, 160, 192, 224, 260, 288, 320, 360, 408, 448, 504, 546, 600,
     644, 690, 750, 810, 870, 952, 1020, 1050, 1140, 1200, 1290, 1350, 1440, 1530, 1590, 1680, 1770,
     1860, 1950, 2040]

  /** The error correction codewords of the 40 versions at level High (table 9 of ISO/IEC 18004:2015). */
  const TOTAL_HIGH: seq<int> :=
    [-1, 17, 28, 44, 64, 88, 112, 130, 156, 192, 224, 264, 308, 352, 384, 432, 480, 532, 588, 650, 700,
     750, 816, 900, 960, 1050, 1110, 1200, 1260, 1350, 1440, 1530, 1620, 1710, 1800, 1890, 1980, 2100,
     2220, 2310, 2430]

  lemma TotalLow(ver: int)
    requires IsVersion(ver)
    ensures EccPerBlock(ver, Low) * NumBlocks(ver, Low) == TOTAL_LOW[ver]
  {
  }

  lemma TotalMedium(ver: int)
    requires IsVersion(ver)
    ensures EccPerBlock(ver, Medium) * NumBlocks(ver, Medium) == TOTAL_MEDIUM[ver]
  {
  }

  lemma TotalQuartile(ver: int)
    requires IsVersion(ver)
    ensures EccPerBlock(ver, Quartile) * NumBlocks(ver, Quartile) == TOTAL_QUARTILE[ver]
  {
  }

  lemma TotalHigh(ver: int)
    requires IsVersion(ver)
    ensures EccPerBlock(ver, High) * NumBlocks(ver, High) == TOTAL_HIGH[ver]
  {
  }

  /** Blocks and codewords per block multiply to the published totals, and data makes up the rest. */
  lemma EccTotals(ver: int)
    requires IsVersion(ver)
    ensures DataCodewords(ver, Low) == RawDataModules(ver) / 8 - TOTAL_LOW[ver]
    ensures DataCodewords(ver, Medium) == RawDataModules(ver) / 8 - TOTAL_MEDIUM[ver]
    ensures DataCodewords(ver, Quartile) == RawDataModules(ver) / 8 - TOTAL_QUARTILE[ver]
    ensures DataCodewords(ver, High) == RawDataModules(ver) / 8 - TOTAL_HIGH[ver]
  {
    hide EccPerBlock, NumBlocks, RawDataModules;
    TotalLow(ver);
    TotalMedium(ver);
    TotalQuartile(ver);
    TotalHigh(ver);
  }

  /** The raw capacity of a version; its range assertion holds for all 40 versions. */
  method GetNumRawDataModules(ver: int) returns (r: Result<nat>)
    ensures !IsVersion(ver) ==> r == Err(DomainError)
    ensures IsVersion(ver) ==> r == Ok(RawDataModules(ver)) && 208 <= r.value <= 29648
  {
    if ver < MIN_VERSION || ver > MAX_VERSION {
      return Err(DomainError);
    }
    RawTable(ver);
    RawRange(ver);
    var result := (16 * ver + 128) * ver + 64;
    if ver >= 2 {
      var numAlign := ver / 7 + 2;
      result := result - ((25 * numAlign - 10) * numAlign - 55);
      if ver >= 7 {
        result := result - 36;
      }
    }
    assert 208 <= result <= 29648;
    return Ok(result);
  }

  lemma RawRange(ver: int)
    requires IsVersion(ver)
    ensures 208 <= RawEntry(ver) <= 29648
  {
  }
}
