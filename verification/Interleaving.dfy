/**
Splitting the data into blocks, appending error correction codewords to each, and interleaving
the blocks (section 7.6 of ISO/IEC 18004:2015), for any number of blocks and any block lengths.
*/
module Interleaving {
  import opened Arithmetic
  import opened Bits
  import opened Results
  import opened Polynomials
  import opened ReedSolomon

  /**
  The shape of a symbol's blocks.  The first `short` of the `blocks` blocks hold `shortData` data
  codewords, the others hold one more; every block has `ecc` error correction codewords.
  */
  datatype Shape = Shape(blocks: nat, short: nat, shortData: nat, ecc: nat)
  {
    predicate Valid()
    {
      1 <= short <= blocks && 1 <= ecc
    }

    function DataLen(j: nat): (n: nat)
    {
      if j < short then shortData else shortData + 1
    }

    /** The number of data codewords in the blocks before block j. */
    function DataStart(j: nat): (n: nat)
    {
      if j == 0 then 0 else DataStart(j - 1) + DataLen(j - 1)
    }

    function DataTotal(): (n: nat)
      requires Valid()
    {
      blocks * shortData + (blocks - short)
    }

    function RawTotal(): (n: nat)
      requires Valid()
    {
      DataTotal() + blocks * ecc
    }
  }

  /** The shape for given totals: the remainder of the division decides how many blocks are longer. */
  function ShapeOf(numBlocks: nat, blockEccLen: nat, rawCodewords: nat): (sh: Shape)
    requires numBlocks >= 1 && blockEccLen >= 1 && rawCodewords / numBlocks >= blockEccLen
    ensures sh.Valid()
  {
    Shape(numBlocks, numBlocks - rawCodewords % numBlocks, rawCodewords / numBlocks - blockEccLen, blockEccLen)
  }

  /** The shape accounts for every raw codeword. */
  lemma ShapeTotals(numBlocks: nat, blockEccLen: nat, rawCodewords: nat)
    requires numBlocks >= 1 && blockEccLen >= 1 && rawCodewords / numBlocks >= blockEccLen
    ensures ShapeOf(numBlocks, blockEccLen, rawCodewords).RawTotal() == rawCodewords
    ensures ShapeOf(numBlocks, blockEccLen, rawCodewords).DataTotal() == rawCodewords - numBlocks * blockEccLen
  {
    var q := rawCodewords / numBlocks;
    assert rawCodewords == numBlocks * q + rawCodewords % numBlocks;
    assert numBlocks * q == numBlocks * (q - blockEccLen) + numBlocks * blockEccLen;
  }

  lemma {:induction false} DataStartClosed(sh: Shape, j: nat)
    requires sh.Valid() && j <= sh.blocks
    ensures sh.DataStart(j) == j * sh.shortData + (if j <= sh.short then 0 else j - sh.short)
  {
    if j != 0 {
      DataStartClosed(sh, j - 1);
      assert j * sh.shortData == (j - 1) * sh.shortData + sh.shortData;
    }
  }

  lemma DataStartBounds(sh: Shape, j: nat)
    requires sh.Valid() && j <= sh.blocks
    ensures sh.DataStart(j) <= sh.DataTotal()
    ensures sh.DataStart(sh.blocks) == sh.DataTotal()
  {
    hide Shape.DataStart;
    DataStartClosed(sh, j);
    DataStartClosed(sh, sh.blocks);
    MulMonotone(sh.shortData, j, sh.blocks);
  }

  //////////////////////////////////////////////////////////////////////////////
  // Blocks
  //////////////////////////////////////////////////////////////////////////////

  /** The data codewords of block j. */
  function BlockData(sh: Shape, data: seq<Byte>, j: nat): (b: seq<Byte>)
    requires sh.Valid() && |data| == sh.DataTotal() && j < sh.blocks
    ensures |b| == sh.DataLen(j)
  {
    DataStartBounds(sh, j);
    DataStartBounds(sh, j + 1);
    data[sh.DataStart(j)..sh.DataStart(j + 1)]
  }

  /** Block j as the encoder stores it: short blocks have a filler byte before the error correction codewords. */
  function PaddedBlock(sh: Shape, data: seq<Byte>, j: nat): (b: seq<Byte>)
    requires sh.Valid() && |data| == sh.DataTotal() && j < sh.blocks
    ensures |b| == sh.shortData + 1 + sh.ecc
  {
    var dat := BlockData(sh, data, j);
    (if j < sh.short then dat + [0] else dat) + Remainder(dat, Divisor(sh.ecc))
  }

  function PaddedBlocks(sh: Shape, data: seq<Byte>): (bs: seq<seq<Byte>>)
    requires sh.Valid() && |data| == sh.DataTotal()
    ensures |bs| == sh.blocks
    ensures forall j :: 0 <= j < |bs| ==> bs[j] == PaddedBlock(sh, data, j)
  {
    seq(sh.blocks, j requires 0 <= j < sh.blocks => PaddedBlock(sh, data, j))
  }

  predicate Rectangular(sh: Shape, bs: seq<seq<Byte>>)
  {
    |bs| == sh.blocks && forall j :: 0 <= j < |bs| ==> |bs[j]| == sh.shortData + 1 + sh.ecc
  }

  //////////////////////////////////////////////////////////////////////////////
  // Interleaving
  //////////////////////////////////////////////////////////////////////////////

  /** The first block that contributes to row i. */
  function FirstBlock(sh: Shape, i: nat): (j: nat)
  {
    if i == sh.shortData then sh.short else 0
  }

  /** The i-th codewords of the blocks from `from` up to `to`. */
  function RowPart(bs: seq<seq<Byte>>, i: nat, from: nat, to: nat): (r: seq<Byte>)
    requires from <= to <= |bs|
    requires forall j :: 0 <= j < |bs| ==> i < |bs[j]|
    ensures |r| == to - from
    ensures forall j :: from <= j < to ==> r[j - from] == bs[j][i]
  {
    seq(to - from, k requires 0 <= k < to - from => bs[from + k][i])
  }

  /** The first n rows, one after the other; fillers are left out. */
  function Rows(sh: Shape, bs: seq<seq<Byte>>, n: nat): (r: seq<Byte>)
    requires sh.Valid() && Rectangular(sh, bs) && n <= sh.shortData + 1 + sh.ecc
  {
    if n == 0 then [] else Rows(sh, bs, n - 1) + RowPart(bs, n - 1, FirstBlock(sh, n - 1), sh.blocks)
  }

  function RowStart(sh: Shape, n: nat): (p: nat)
    requires sh.Valid()
  {
    if n <= sh.shortData then n * sh.blocks
    else
      var eccRows: nat := n - sh.shortData - 1;
      sh.DataTotal() + eccRows * sh.blocks
  }

  lemma RowStartNext(sh: Shape, n: nat)
    requires sh.Valid()
    ensures RowStart(sh, n + 1) == RowStart(sh, n) + sh.blocks - FirstBlock(sh, n)
  {
    if n < sh.shortData {
      assert (n + 1) * sh.blocks == n * sh.blocks + sh.blocks;
    } else if n == sh.shortData {
      assert (n + 1 - n - 1) * sh.blocks == 0;
    } else {
      assert (n + 1 - sh.shortData - 1) * sh.blocks == (n - sh.shortData - 1) * sh.blocks + sh.blocks;
    }
  }

  lemma {:induction false} RowsLength(sh: Shape, bs: seq<seq<Byte>>, n: nat)
    requires sh.Valid() && Rectangular(sh, bs) && n <= sh.shortData + 1 + sh.ecc
    ensures |Rows(sh, bs, n)| == RowStart(sh, n)
  {
    hide RowStart;
    if n == 0 {
      RowStartZero(sh);
    } else {
      RowsLength(sh, bs, n - 1);
      RowStartNext(sh, n - 1);
    }
  }

  lemma RowStartZero(sh: Shape)
    requires sh.Valid()
    ensures RowStart(sh, 0) == 0
  {
  }

  lemma {:induction false} RowsAt(sh: Shape, bs: seq<seq<Byte>>, n: nat, i: nat, j: nat)
    requires sh.Valid() && Rectangular(sh, bs) && i < n <= sh.shortData + 1 + sh.ecc
    requires FirstBlock(sh, i) <= j < sh.blocks
    ensures var p := RowStart(sh, i) + j - FirstBlock(sh, i);
            p < |Rows(sh, bs, n)| && Rows(sh, bs, n)[p] == bs[j][i]
  {
    hide RowStart;
    RowsLength(sh, bs, n - 1);
    RowsLength(sh, bs, n);
    if i < n - 1 {
      RowsAt(sh, bs, n - 1, i, j);
    } else {
      RowStartNext(sh, i);
    }
  }

  /** The interleaved codewords of the whole symbol. */
  function Interleave(sh: Shape, data: seq<Byte>): (r: seq<Byte>)
    requires sh.Valid() && |data| == sh.DataTotal()
  {
    Rows(sh, PaddedBlocks(sh, data), sh.shortData + 1 + sh.ecc)
  }

  lemma InterleaveLength(sh: Shape, data: seq<Byte>)
    requires sh.Valid() && |data| == sh.DataTotal()
    ensures |Interleave(sh, data)| == sh.RawTotal()
  {
    RowsLength(sh, PaddedBlocks(sh, data), sh.shortData + 1 + sh.ecc);
    assert (sh.shortData + 1 + sh.ecc - sh.shortData - 1) * sh.blocks == sh.blocks * sh.ecc;
  }

  //////////////////////////////////////////////////////////////////////////////
  // The reader
  //////////////////////////////////////////////////////////////////////////////

  /** The row in which the i-th codeword of block j is sent, counting the filler of short blocks. */
  function Row(sh: Shape, j: nat, i: nat): (row: nat)
  {
    if i < sh.DataLen(j) then i else i - sh.DataLen(j) + sh.shortData + 1
  }

  /** Where the i-th codeword of block j is found in the interleaved sequence. */
  function Position(sh: Shape, j: nat, i: nat): (p: nat)
    requires sh.Valid() && j < sh.blocks && i < sh.DataLen(j) + sh.ecc
  {
    RowStart(sh, Row(sh, j, i)) + j - FirstBlock(sh, Row(sh, j, i))
  }

  lemma RowsFit(sh: Shape, j: nat, i: nat)
    requires sh.Valid() && j < sh.blocks && i < sh.DataLen(j) + sh.ecc
    ensures Row(sh, j, i) < sh.shortData + 1 + sh.ecc
    ensures FirstBlock(sh, Row(sh, j, i)) <= j
  {
  }

  lemma {:induction false} RowStartMonotone(sh: Shape, m: nat, n: nat)
    requires sh.Valid() && m <= n
    ensures RowStart(sh, m) <= RowStart(sh, n)
  {
    if m < n {
      RowStartMonotone(sh, m, n - 1);
      RowStartNext(sh, n - 1);
    }
  }

  lemma PositionBound(sh: Shape, j: nat, i: nat)
    requires sh.Valid() && j < sh.blocks && i < sh.DataLen(j) + sh.ecc
    ensures Position(sh, j, i) < sh.RawTotal()
  {
    hide RowStart;
    var row, rows := Row(sh, j, i), sh.shortData + 1 + sh.ecc;
    RowsFit(sh, j, i);
    RowStartNext(sh, row);
    RowStartMonotone(sh, row + 1, rows);
    RowStartEnd(sh);
  }

  lemma RowStartEnd(sh: Shape)
    requires sh.Valid()
    ensures RowStart(sh, sh.shortData + 1 + sh.ecc) == sh.RawTotal()
  {
    assert (sh.shortData + 1 + sh.ecc - sh.shortData - 1) * sh.blocks == sh.blocks * sh.ecc;
  }

  /** No two codewords are sent in the same place. */
  lemma PositionInjective(sh: Shape, j: nat, i: nat, j': nat, i': nat)
    requires sh.Valid() && j < sh.blocks && i < sh.DataLen(j) + sh.ecc
    requires j' < sh.blocks && i' < sh.DataLen(j') + sh.ecc
    requires Position(sh, j, i) == Position(sh, j', i')
    ensures j == j' && i == i'
  {
    hide RowStart;
    var row, row' := Row(sh, j, i), Row(sh, j', i');
    RowsFit(sh, j, i);
    RowsFit(sh, j', i');
    RowStartNext(sh, row);
    RowStartNext(sh, row');
    if row < row' {
      RowStartMonotone(sh, row + 1, row');
    } else if row' < row {
      RowStartMonotone(sh, row' + 1, row);
    }
  }

  /** Every place of the interleaved sequence carries a codeword of some block. */
  lemma PositionOnto(sh: Shape, p: nat) returns (j: nat, i: nat)
    requires sh.Valid() && p < sh.RawTotal()
    ensures j < sh.blocks && i < sh.DataLen(j) + sh.ecc && Position(sh, j, i) == p
  {
    hide RowStart;
    var row := 0;
    RowStartZero(sh);
    RowStartEnd(sh);
    while RowStart(sh, row + 1) <= p
      invariant RowStart(sh, row) <= p && row < sh.shortData + 1 + sh.ecc
      decreases sh.shortData + 1 + sh.ecc - row
    {
      row := row + 1;
    }
    RowStartNext(sh, row);
    j := p - RowStart(sh, row) + FirstBlock(sh, row);
    i := if row <= sh.shortData then row else row - sh.shortData - 1 + sh.DataLen(j);
  }

  /** The codewords of block j, data first, as the reader collects them. */
  function ReadBlock(sh: Shape, received: seq<Byte>, j: nat): (b: seq<Byte>)
    requires sh.Valid() && j < sh.blocks && |received| == sh.RawTotal()
    ensures |b| == sh.DataLen(j) + sh.ecc
  {
    seq(sh.DataLen(j) + sh.ecc, i requires 0 <= i < sh.DataLen(j) + sh.ecc =>
      PositionBound(sh, j, i);
      received[Position(sh, j, i)])
  }

  /** The data codewords of the first n blocks. */
  function ReadData(sh: Shape, received: seq<Byte>, n: nat): (data: seq<Byte>)
    requires sh.Valid() && n <= sh.blocks && |received| == sh.RawTotal()
  {
    if n == 0 then []
    else ReadData(sh, received, n - 1) + ReadBlock(sh, received, n - 1)[..sh.DataLen(n - 1)]
  }

  /** De-interleaving recovers every block: its data followed by its error correction codewords. */
  lemma ReadBlockInverts(sh: Shape, data: seq<Byte>, j: nat)
    requires sh.Valid() && |data| == sh.DataTotal() && j < sh.blocks
    ensures |Interleave(sh, data)| == sh.RawTotal()
    ensures ReadBlock(sh, Interleave(sh, data), j) == Codeword(BlockData(sh, data, j), sh.ecc)
  {
    hide RowStart, Rows, Remainder, Divisor;
    InterleaveLength(sh, data);
    var bs := PaddedBlocks(sh, data);
    forall i | 0 <= i < sh.DataLen(j) + sh.ecc
      ensures ReadBlock(sh, Interleave(sh, data), j)[i] == Codeword(BlockData(sh, data, j), sh.ecc)[i]
    {
      RowsFit(sh, j, i);
      RowsAt(sh, bs, sh.shortData + 1 + sh.ecc, Row(sh, j, i), j);
    }
  }

  lemma RowStartIs(sh: Shape, n: nat)
    requires sh.Valid()
    ensures n <= sh.shortData ==> RowStart(sh, n) == n * sh.blocks
    ensures n > sh.shortData ==> RowStart(sh, n) == sh.DataTotal() + (n - sh.shortData - 1) * sh.blocks
  {
  }

  /**
  Data codewords in closed form: the i-th codeword of block j is codeword j of row i; the last row has
  a codeword of the long blocks only.  Block j begins after j short blocks and one more codeword for
  each long block before it.
  */
  lemma InterleavedData(sh: Shape, data: seq<Byte>, j: nat, i: nat)
    requires sh.Valid() && |data| == sh.DataTotal() && j < sh.blocks
    requires i < sh.shortData + if j < sh.short then 0 else 1
    ensures var from: int := j * sh.shortData + (if j <= sh.short then 0 else j - sh.short) + i;
            var to: int := i * sh.blocks + j - (if i < sh.shortData then 0 else sh.short);
            && 0 <= from < |data| && 0 <= to < |Interleave(sh, data)|
            && Interleave(sh, data)[to] == data[from]
  {
    hide RowStart, Rows, Remainder, Divisor, Shape.DataStart;
    RowStartIs(sh, i);
    RowsAt(sh, PaddedBlocks(sh, data), sh.shortData + 1 + sh.ecc, i, j);
    DataStartClosed(sh, j);
    DataStartBounds(sh, j);
    DataStartBounds(sh, j + 1);
    DataStartNext(sh, j);
  }

  lemma DataStartNext(sh: Shape, j: nat)
    ensures sh.DataStart(j + 1) == sh.DataStart(j) + sh.DataLen(j)
  {
  }

  /** Error correction codewords in closed form: after all data, row by row, one of every block. */
  lemma InterleavedEcc(sh: Shape, data: seq<Byte>, j: nat, e: nat)
    requires sh.Valid() && |data| == sh.DataTotal() && j < sh.blocks && e < sh.ecc
    ensures var to: int := |data| + e * sh.blocks + j;
            && 0 <= to < |Interleave(sh, data)|
            && Interleave(sh, data)[to] == Remainder(BlockData(sh, data, j), Divisor(sh.ecc))[e]
  {
    hide RowStart, Rows, Remainder, Divisor, Shape.DataStart, BlockData;
    RowStartIs(sh, sh.shortData + 1 + e);
    RowsAt(sh, PaddedBlocks(sh, data), sh.shortData + 1 + sh.ecc, sh.shortData + 1 + e, j);
  }

  lemma {:induction false} ReadDataPrefix(sh: Shape, data: seq<Byte>, n: nat)
    requires sh.Valid() && |data| == sh.DataTotal() && n <= sh.blocks
    ensures |Interleave(sh, data)| == sh.RawTotal() && sh.DataStart(n) <= |data|
    ensures ReadData(sh, Interleave(sh, data), n) == data[..sh.DataStart(n)]
  {
    hide Interleave, ReadBlock, Remainder, Divisor;
    InterleaveLength(sh, data);
    DataStartBounds(sh, n);
    if n != 0 {
      ReadDataPrefix(sh, data, n - 1);
      ReadBlockInverts(sh, data, n - 1);
    }
  }

  /** De-interleaving and dropping the error correction codewords gives back the data. */
  lemma ReadDataInverts(sh: Shape, data: seq<Byte>)
    requires sh.Valid() && |data| == sh.DataTotal()
    ensures |Interleave(sh, data)| == sh.RawTotal()
    ensures ReadData(sh, Interleave(sh, data), sh.blocks) == data
  {
    ReadDataPrefix(sh, data, sh.blocks);
    DataStartBounds(sh, sh.blocks);
  }

  //////////////////////////////////////////////////////////////////////////////
  // The encoder
  //////////////////////////////////////////////////////////////////////////////

  /** Cuts the data into blocks and appends the error correction codewords of each. */
  method SplitIntoBlocks(data: seq<Byte>, sh: Shape) returns (blocks: seq<seq<Byte>>)
    requires sh.Valid() && sh.ecc <= 255 && |data| == sh.DataTotal()
    ensures blocks == PaddedBlocks(sh, data)
  {
    hide Remainder, Divisor;
    blocks := [];
    var divisor := ReedSolomonComputeDivisor(sh.ecc);
    var rsDiv := divisor.value;
    var k := 0;
    for i := 0 to sh.blocks
      invariant k == sh.DataStart(i)
      invariant |blocks| == i && forall j :: 0 <= j < i ==> blocks[j] == PaddedBlock(sh, data, j)
    {
      DataStartBounds(sh, i + 1);
      var dat := data[k..k + sh.shortData + (if i < sh.short then 0 else 1)];
      assert dat == BlockData(sh, data, i);
      k := k + |dat|;
      var ecc := ReedSolomonComputeRemainder(dat, rsDiv);
      if i < sh.short {
        dat := dat + [0];
      }
      dat := dat + ecc;
      blocks := blocks + [dat];
    }
  }

  lemma RowPartSnoc(bs: seq<seq<Byte>>, i: nat, from: nat, to: nat)
    requires from <= to < |bs| && forall j :: 0 <= j < |bs| ==> i < |bs[j]|
    ensures RowPart(bs, i, from, to + 1) == RowPart(bs, i, from, to) + [bs[to][i]]
  {
  }

  lemma RowPartEmpty(bs: seq<seq<Byte>>, i: nat, from: nat)
    requires from <= |bs| && forall j :: 0 <= j < |bs| ==> i < |bs[j]|
    ensures RowPart(bs, i, from, from) == []
  {
  }

  /** Sends one row, skipping the fillers. */
  method AppendRow(blocks: seq<seq<Byte>>, sh: Shape, i: nat, before: seq<Byte>) returns (result: seq<Byte>)
    requires sh.Valid() && Rectangular(sh, blocks) && i < sh.shortData + 1 + sh.ecc
    ensures result == before + RowPart(blocks, i, FirstBlock(sh, i), sh.blocks)
  {
    hide RowPart;
    result := before;
    ghost var first := FirstBlock(sh, i);
    RowPartEmpty(blocks, i, first);
    for j := 0 to |blocks|
      invariant result == before + RowPart(blocks, i, first, if j < first then first else j)
    {
      if i != sh.shortData || j >= sh.short {
        RowPartSnoc(blocks, i, first, j);
        result := result + [blocks[j][i]];
      }
    }
  }

  /** Sends the blocks row by row, skipping the filler of the short blocks. */
  method InterleaveBlocks(blocks: seq<seq<Byte>>, sh: Shape) returns (result: seq<Byte>)
    requires sh.Valid() && Rectangular(sh, blocks)
    ensures result == Rows(sh, blocks, sh.shortData + 1 + sh.ecc)
  {
    hide RowPart;
    result := [];
    for i := 0 to |blocks[0]|
      invariant result == Rows(sh, blocks, i)
    {
      result := AppendRow(blocks, sh, i, result);
    }
  }

  /**
  Appends error correction codewords and interleaves.  All slices stay in bounds, all data is
  used, and the length check at the end never fails.
  */
  method AddEccAndInterleave(data: seq<Byte>, numBlocks: nat, blockEccLen: nat, rawCodewords: nat)
    returns (r: Result<seq<Byte>>)
    requires numBlocks >= 1 && 1 <= blockEccLen <= 255 && rawCodewords / numBlocks >= blockEccLen
    ensures |data| != rawCodewords - numBlocks * blockEccLen ==> r == Err(InvalidArgument)
    ensures |data| == rawCodewords - numBlocks * blockEccLen ==>
              var sh := ShapeOf(numBlocks, blockEccLen, rawCodewords);
              |data| == sh.DataTotal() && r == Ok(Interleave(sh, data)) && |r.value| == rawCodewords
  {
    hide RowStart, PaddedBlock, Rows;
    if |data| != rawCodewords - numBlocks * blockEccLen {
      return Err(InvalidArgument);
    }
    ShapeTotals(numBlocks, blockEccLen, rawCodewords);
    var numShortBlocks := numBlocks - rawCodewords % numBlocks;
    var shortBlockLen := rawCodewords / numBlocks;
    var sh := Shape(numBlocks, numShortBlocks, shortBlockLen - blockEccLen, blockEccLen);
    var blocks := SplitIntoBlocks(data, sh);
    var result := InterleaveBlocks(blocks, sh);
    InterleaveLength(sh, data);
    assert |result| == rawCodewords;
    return Ok(result);
  }
}
