/** Splitting the data codewords of a symbol into blocks, protecting each block, and interleaving them. */
module CodewordBlocks {
  import opened Common
  import opened Wrappers
  import opened QrTables
  import opened ReedSolomon

  /** The block structure of a symbol: its number of blocks, how many of them are short, the data bytes of a short
      block (long blocks have one more), and the correction bytes of each block. */
  datatype Layout = Layout(numBlocks: nat, numShort: nat, shortData: nat, eccLen: nat) {
    predicate Valid() {
      1 <= numShort <= numBlocks && 1 <= eccLen && 1 <= shortData
    }

    /** Bytes of a block, counting the padding byte of a short one. */
    function Width(): nat {
      shortData + 1 + eccLen
    }

    function DataLen(j: nat): nat {
      if j < numShort then shortData else shortData + 1
    }

    /** Where the data of block j starts. */
    function DataStart(j: nat): nat {
      if j == 0 then 0 else DataStart(j - 1) + DataLen(j - 1)
    }

    /** Bytes of the symbol in row i: the row after the short blocks' data passes over those blocks. */
    function RowLen(i: nat): nat {
      if i != shortData then numBlocks else if numShort <= numBlocks then numBlocks - numShort else 0
    }

    /** Where row i starts in the interleaved sequence. */
    function RowStart(i: nat): nat {
      if i == 0 then 0 else RowStart(i - 1) + RowLen(i - 1)
    }

    /** Row i of block j is a padding byte that is not part of the symbol. */
    predicate Skipped(i: nat, j: nat) {
      i == shortData && j < numShort
    }

    /** The index, within row i, of the byte of block j. */
    function Column(i: nat, j: nat): nat
      requires !Skipped(i, j)
    {
      if i == shortData then j - numShort else j
    }
  }

  function LayoutOf(ver: int, ecl: Ecc): Layout
    requires IsVersion(ver)
  {
    LayoutsSound(ver, ecl);
    var numBlocks, blockEccLen, rawCodewords := NumBlocks(ver, ecl), BlockEccLen(ver, ecl), RawCodewords(ver);
    var shortBlockLen := rawCodewords / numBlocks;
    QuotientBounds(rawCodewords, numBlocks, blockEccLen);
    Layout(numBlocks, numBlocks - rawCodewords % numBlocks, shortBlockLen - blockEccLen, blockEccLen)
  }

  lemma QuotientBounds(raw: int, n: int, e: int)
    requires SoundLayout(raw, n, e)
    ensures raw == (raw / n) * n + raw % n && e + 1 <= raw / n < 255
  {
    var q := raw / n;
    if q <= e {
      MulMonotone(q, e, n);
    }
    if q >= 255 {
      MulMonotone(255, q, n);
    }
  }

  lemma {:induction false} DataStartClosed(lay: Layout, j: nat)
    ensures lay.DataStart(j) == j * lay.shortData + (if j <= lay.numShort then 0 else j - lay.numShort)
  {
    if j > 0 {
      DataStartClosed(lay, j - 1);
      assert j * lay.shortData == (j - 1) * lay.shortData + lay.shortData;
    }
  }

  lemma {:induction false} RowStartClosed(lay: Layout, i: nat)
    requires lay.Valid()
    ensures lay.RowStart(i) == i * lay.numBlocks - (if i <= lay.shortData then 0 else lay.numShort)
  {
    if i > 0 {
      RowStartClosed(lay, i - 1);
      assert i * lay.numBlocks == (i - 1) * lay.numBlocks + lay.numBlocks;
    }
  }

  lemma LayoutSizes(n: nat, e: nat, q: nat, r: nat)
    requires 1 <= n && 1 <= e && e + 1 <= q < 255 && r < n
    ensures var lay := Layout(n, n - r, q - e, e);
      lay.Valid() && lay.RowStart(lay.Width()) == q * n + r && lay.DataStart(n) == q * n + r - e * n
  {
    var lay := Layout(n, n - r, q - e, e);
    DataStartClosed(lay, n);
    RowStartClosed(lay, q + 1);
    hide Layout.DataStart, Layout.RowStart;
    assert n * (q - e) == q * n - e * n;
    assert (q + 1) * n == q * n + n;
  }

  /** The layout of every symbol accounts for exactly its codewords and exactly its data codewords. */
  lemma LayoutOfSound(ver: int, ecl: Ecc)
    requires IsVersion(ver)
    ensures var lay := LayoutOf(ver, ecl);
      lay.Valid() && lay.RowStart(lay.Width()) == RawCodewords(ver)
        && lay.DataStart(lay.numBlocks) == NumDataCodewords(ver, ecl)
      && lay.numBlocks == NumBlocks(ver, ecl) && lay.Width() <= 255
  {
    hide *;
    LayoutsSound(ver, ecl);
    var n, e, raw := NumBlocks(ver, ecl), BlockEccLen(ver, ecl), RawCodewords(ver);
    SoundMeans(raw, n, e);
    QuotientBounds(raw, n, e);
    LayoutSizes(n, e, raw / n, raw % n);
    LayoutOfIs(ver, ecl);
  }

  lemma SoundMeans(raw: int, n: int, e: int)
    requires SoundLayout(raw, n, e)
    ensures 1 <= n <= 81 && 1 <= e <= raw
  {
    MulMonotone(1, n, e + 1);
  }

  lemma LayoutOfIs(ver: int, ecl: Ecc)
    requires IsVersion(ver)
    ensures var n, e, raw := NumBlocks(ver, ecl), BlockEccLen(ver, ecl), RawCodewords(ver);
      && SoundLayout(raw, n, e) && n > 0
      && n - raw % n >= 0 && raw / n - e >= 0 && e >= 0 && LayoutOf(ver, ecl) == Layout(n, n - raw % n, raw / n - e, e)
      && NumDataCodewords(ver, ecl) == raw - e * n
      && Layout(n, n - raw % n, raw / n - e, e).Width() == raw / n + 1
  {
    hide NumBlocks, BlockEccLen, RawCodewords, SoundLayout;
    var n, e, raw := NumBlocks(ver, ecl), BlockEccLen(ver, ecl), RawCodewords(ver);
    LayoutsSound(ver, ecl);
    SoundMeans(raw, n, e);
    QuotientBounds(raw, n, e);
  }

  // ---------- Splitting ----------

  lemma {:induction false} DataStartMonotone(lay: Layout, j: nat, k: nat)
    requires j <= k
    ensures lay.DataStart(j) <= lay.DataStart(k)
  {
    if j < k {
      DataStartMonotone(lay, j, k - 1);
    }
  }

  /** The data bytes of block j. */
  function DataBlock(lay: Layout, data: seq<bv8>, j: nat): (d: seq<bv8>)
    requires j < lay.numBlocks && |data| == lay.DataStart(lay.numBlocks)
    ensures |d| == lay.DataLen(j)
  {
    DataStartMonotone(lay, j + 1, lay.numBlocks);
    data[lay.DataStart(j)..lay.DataStart(j + 1)]
  }

  /** Block j with its padding byte, if it is short, and its correction bytes. */
  function PaddedBlock(lay: Layout, data: seq<bv8>, j: nat): (b: seq<bv8>)
    requires lay.Valid() && j < lay.numBlocks && |data| == lay.DataStart(lay.numBlocks)
    ensures |b| == lay.Width()
  {
    var d := DataBlock(lay, data, j);
    d + (if j < lay.numShort then [0] else []) + Codeword(d, lay.eccLen)[|d|..]
  }

  lemma EccOfBlock(dat: seq<bv8>, divisor: seq<bv8>, n: nat)
    requires n > 0 && [1] + divisor == Generator(n)
    ensures divisor != [] && Remainder(dat, divisor) == Codeword(dat, n)[|dat|..]
  {
    hide Generator, Remainder;
    assert divisor == Generator(n)[1..];
  }

  /** Splits the data into blocks and appends the correction bytes to each. */
  method SplitIntoBlocks(lay: Layout, data: seq<bv8>) returns (blocks: seq<seq<bv8>>)
    requires lay.Valid() && lay.eccLen <= 255 && |data| == lay.DataStart(lay.numBlocks)
    ensures |blocks| == lay.numBlocks && forall j :: 0 <= j < |blocks| ==> blocks[j] == PaddedBlock(lay, data, j)
  {
    hide Codeword, Generator, Remainder, Layout.DataStart;
    blocks := [];
    var rsDiv := ComputeDivisor(lay.eccLen);
    var k := 0;
    DataStartUnfold(lay, 0);
    for i := 0 to lay.numBlocks
      invariant k == lay.DataStart(i) && |blocks| == i
      invariant forall j :: 0 <= j < i ==> blocks[j] == PaddedBlock(lay, data, j)
    {
      DataStartUnfold(lay, i);
      DataStartMonotone(lay, i + 1, lay.numBlocks);
      var dat := data[k..k + lay.shortData + (if i < lay.numShort then 0 else 1)];
      k := k + |dat|;
      var ecc := ComputeRemainder(dat, rsDiv.value);
      EccOfBlock(dat, rsDiv.value, lay.eccLen);
      if i < lay.numShort {
        dat := dat + [0];
      }
      dat := dat + ecc;
      blocks := blocks + [dat];
    }
  }

  lemma DataStartUnfold(lay: Layout, j: nat)
    ensures lay.DataStart(0) == 0 && lay.DataStart(j + 1) == lay.DataStart(j) + lay.DataLen(j)
  {}

  // ---------- Interleaving ----------

  predicate Rectangular(blocks: seq<seq<bv8>>, lay: Layout) {
    |blocks| == lay.numBlocks && forall j :: 0 <= j < |blocks| ==> |blocks[j]| == lay.Width()
  }

  /** The bytes with index i of the first `w` blocks, without padding bytes. */
  function Row(lay: Layout, blocks: seq<seq<bv8>>, i: nat, w: nat): (r: seq<bv8>)
    requires lay.Valid() && Rectangular(blocks, lay) && i < lay.Width() && w <= |blocks|
    ensures |r| == if i != lay.shortData then w else if w <= lay.numShort then 0 else w - lay.numShort
    ensures forall j: nat :: j < w && !lay.Skipped(i, j) ==>
      lay.Column(i, j) < |r| && r[lay.Column(i, j)] == blocks[j][i]
  {
    if w == 0 then [] else Row(lay, blocks, i, w - 1) + (if lay.Skipped(i, w - 1) then [] else [blocks[w - 1][i]])
  }

  /** The first `h` rows, one after the other. */
  function Rows(lay: Layout, blocks: seq<seq<bv8>>, h: nat): (r: seq<bv8>)
    requires lay.Valid() && Rectangular(blocks, lay) && h <= lay.Width()
    ensures |r| == lay.RowStart(h)
  {
    if h == 0 then [] else Rows(lay, blocks, h - 1) + Row(lay, blocks, h - 1, |blocks|)
  }

  lemma RowUnfold(lay: Layout, blocks: seq<seq<bv8>>, i: nat, j: nat)
    requires lay.Valid() && Rectangular(blocks, lay) && i < lay.Width() && j < |blocks|
    ensures Row(lay, blocks, i, 0) == []
    ensures Row(lay, blocks, i, j + 1) == Row(lay, blocks, i, j) + (if lay.Skipped(i, j) then [] else [blocks[j][i]])
  {}

  lemma RowsUnfold(lay: Layout, blocks: seq<seq<bv8>>, i: nat)
    requires lay.Valid() && Rectangular(blocks, lay) && i < lay.Width()
    ensures Rows(lay, blocks, 0) == []
      && Rows(lay, blocks, i + 1) == Rows(lay, blocks, i) + Row(lay, blocks, i, |blocks|)
  {}

  /** Takes one byte from every block in turn, passing over the padding bytes of the short blocks. */
  method Interleave(lay: Layout, blocks: seq<seq<bv8>>) returns (result: seq<bv8>)
    requires lay.Valid() && Rectangular(blocks, lay)
    ensures result == Rows(lay, blocks, lay.Width())
  {
    hide Row, Rows, Layout.RowStart, Layout.RowLen, Layout.Column;
    RowsUnfold(lay, blocks, 0);
    result := [];
    for i := 0 to |blocks[0]|
      invariant result == Rows(lay, blocks, i)
    {
      RowsUnfold(lay, blocks, i);
      RowUnfold(lay, blocks, i, 0);
      for j := 0 to |blocks|
        invariant result == Rows(lay, blocks, i) + Row(lay, blocks, i, j)
      {
        RowUnfold(lay, blocks, i, j);
        if i != lay.shortData || j >= lay.numShort {
          result := result + [blocks[j][i]];
        }
      }
    }
  }

  lemma {:induction false} RowStartMonotone(lay: Layout, i: nat, h: nat)
    requires i <= h
    ensures lay.RowStart(i) <= lay.RowStart(h)
  {
    if i < h {
      RowStartMonotone(lay, i, h - 1);
    }
  }

  /** Every byte of a block is found at the start of its row plus its column. */
  lemma {:induction false} RowsAt(lay: Layout, blocks: seq<seq<bv8>>, h: nat, i: nat, j: nat)
    requires lay.Valid() && Rectangular(blocks, lay) && h <= lay.Width()
    requires i < h && j < lay.numBlocks && !lay.Skipped(i, j)
    ensures lay.Column(i, j) < lay.RowLen(i) && lay.RowStart(i) + lay.RowLen(i) <= lay.RowStart(h)
    ensures Rows(lay, blocks, h)[lay.RowStart(i) + lay.Column(i, j)] == blocks[j][i]
  {
    if i < h - 1 {
      RowsAt(lay, blocks, h - 1, i, j);
      RowStartMonotone(lay, i + 1, h - 1);
    }
  }

  // ---------- Reading a symbol ----------

  /** The codeword in row i that belongs to block j. */
  function ReadByte(lay: Layout, codewords: seq<bv8>, i: nat, j: nat): bv8
    requires lay.Valid() && |codewords| == lay.RowStart(lay.Width()) && i < lay.Width() && j < lay.numBlocks
      && !lay.Skipped(i, j)
  {
    RowStartMonotone(lay, i + 1, lay.Width());
    codewords[lay.RowStart(i) + lay.Column(i, j)]
  }

  /** Distinct bytes are read from distinct places. */
  lemma ReadPlacesDistinct(lay: Layout, i: nat, j: nat, i': nat, j': nat)
    requires lay.Valid() && j < lay.numBlocks && j' < lay.numBlocks && !lay.Skipped(i, j) && !lay.Skipped(i', j')
    requires i <= i' && lay.RowStart(i) + lay.Column(i, j) == lay.RowStart(i') + lay.Column(i', j')
    ensures i == i' && j == j'
  {
    if i < i' {
      RowStartMonotone(lay, i + 1, i');
    }
  }

  /** The block-wise reader: block j's data followed by its correction bytes. */
  function ReadBlock(lay: Layout, codewords: seq<bv8>, j: nat): (b: seq<bv8>)
    requires lay.Valid() && |codewords| == lay.RowStart(lay.Width()) && j < lay.numBlocks
    ensures |b| == lay.DataLen(j) + lay.eccLen
  {
    var n := lay.DataLen(j);
    seq(n, i requires 0 <= i < n => ReadByte(lay, codewords, i, j)) +
    seq(lay.eccLen, i requires 0 <= i < lay.eccLen => ReadByte(lay, codewords, lay.shortData + 1 + i, j))
  }

  /** The data bytes of the first `h` blocks, one block after the other. */
  function ReadData(lay: Layout, codewords: seq<bv8>, h: nat): (d: seq<bv8>)
    requires lay.Valid() && |codewords| == lay.RowStart(lay.Width()) && h <= lay.numBlocks
  {
    if h == 0 then [] else ReadData(lay, codewords, h - 1) + ReadBlock(lay, codewords, h - 1)[..lay.DataLen(h - 1)]
  }

  lemma ReadsBlock(lay: Layout, data: seq<bv8>, blocks: seq<seq<bv8>>, j: nat)
    requires lay.Valid() && |data| == lay.DataStart(lay.numBlocks) && Rectangular(blocks, lay)
    requires j < lay.numBlocks && blocks[j] == PaddedBlock(lay, data, j)
    ensures ReadBlock(lay, Rows(lay, blocks, lay.Width()), j) == Codeword(DataBlock(lay, data, j), lay.eccLen)
  {
    hide Codeword, DataBlock, Rows, Layout.RowStart, Layout.RowLen, Layout.Column;
    var codewords, d := Rows(lay, blocks, lay.Width()), DataBlock(lay, data, j);
    forall i: nat | i < lay.Width() && !lay.Skipped(i, j)
      ensures ReadByte(lay, codewords, i, j) == blocks[j][i]
    {
      RowsAt(lay, blocks, lay.Width(), i, j);
    }
    var c := Codeword(d, lay.eccLen);
    assert c == c[..|d|] + c[|d|..];
  }

  /** The interleaved sequence holds, for every block, the codeword of the block's data. */
  ghost predicate Protects(ver: int, ecl: Ecc, data: seq<bv8>, codewords: seq<bv8>)
    requires IsVersion(ver) && |data| == NumDataCodewords(ver, ecl)
  {
    LayoutOfSound(ver, ecl);
    var lay := LayoutOf(ver, ecl);
    && |codewords| == RawCodewords(ver)
    && (forall j: nat :: j < lay.numBlocks ==>
      ReadBlock(lay, codewords, j) == Codeword(DataBlock(lay, data, j), lay.eccLen))
  }

  lemma ProtectedLength(ver: int, ecl: Ecc, data: seq<bv8>, codewords: seq<bv8>)
    requires IsVersion(ver) && |data| == NumDataCodewords(ver, ecl) && Protects(ver, ecl, data, codewords)
    ensures |codewords| == RawCodewords(ver)
  {
    hide ReadBlock, Codeword, DataBlock, LayoutOf, RawCodewords;
  }

  /** Builds the codeword sequence of a symbol from its data codewords. */
  method AddEccAndInterleave(ver: int, ecl: Ecc, data: seq<bv8>) returns (r: Option<seq<bv8>>)
    requires IsVersion(ver)
    ensures r.Some? <==> |data| == NumDataCodewords(ver, ecl)
    ensures r.Some? ==> Protects(ver, ecl, data, r.value)
  {
    if |data| != NumDataCodewords(ver, ecl) {
      return None;
    }
    hide NumBlocks, BlockEccLen, RawCodewords, Layout.DataStart, Layout.RowStart, LayoutOf;
    LayoutOfSound(ver, ecl);
    var lay := LayoutOf(ver, ecl);
    var blocks := SplitIntoBlocks(lay, data);
    var result := Interleave(lay, blocks);
    forall j: nat | j < lay.numBlocks
      ensures ReadBlock(lay, result, j) == Codeword(DataBlock(lay, data, j), lay.eccLen)
    {
      ReadsBlock(lay, data, blocks, j);
    }
    r := Some(result);
  }

  lemma {:induction false} ReadsDataUpTo(lay: Layout, data: seq<bv8>, codewords: seq<bv8>, h: nat)
    requires lay.Valid() && |data| == lay.DataStart(lay.numBlocks) && |codewords| == lay.RowStart(lay.Width())
      && h <= lay.numBlocks
    requires forall j: nat :: j < h ==> ReadBlock(lay, codewords, j) == Codeword(DataBlock(lay, data, j), lay.eccLen)
    ensures lay.DataStart(h) <= |data| && ReadData(lay, codewords, h) == data[..lay.DataStart(h)]
  {
    hide *;
    DataStartMonotone(lay, h, lay.numBlocks);
    if h == 0 {
      ReadNothing(lay, data, codewords);
    } else {
      ReadsDataUpTo(lay, data, codewords, h - 1);
      DataStartMonotone(lay, h - 1, h);
      ReadOneMore(lay, data, codewords, h - 1);
    }
  }

  lemma ReadNothing(lay: Layout, data: seq<bv8>, codewords: seq<bv8>)
    requires lay.Valid() && |codewords| == lay.RowStart(lay.Width())
    ensures lay.DataStart(0) == 0 && ReadData(lay, codewords, 0) == [] == data[..0]
  {}

  lemma ReadOneMore(lay: Layout, data: seq<bv8>, codewords: seq<bv8>, j: nat)
    requires lay.Valid() && |data| == lay.DataStart(lay.numBlocks) && |codewords| == lay.RowStart(lay.Width())
      && j < lay.numBlocks
    requires ReadBlock(lay, codewords, j) == Codeword(DataBlock(lay, data, j), lay.eccLen)
    requires lay.DataStart(j) <= lay.DataStart(j + 1) <= |data|
      && ReadData(lay, codewords, j) == data[..lay.DataStart(j)]
    ensures ReadData(lay, codewords, j + 1) == data[..lay.DataStart(j + 1)]
  {
    hide ReadBlock, Layout.RowStart, Layout.DataStart, Layout.DataLen, Remainder;
    assert data[..lay.DataStart(j + 1)] == data[..lay.DataStart(j)] + DataBlock(lay, data, j);
  }

  /** Reading the blocks of a protected symbol one after the other gives back all its data, and every block
      read is a Reed-Solomon codeword short enough for the code's distance to hold. */
  lemma ReadsBack(ver: int, ecl: Ecc, data: seq<bv8>, codewords: seq<bv8>)
    requires IsVersion(ver) && |data| == NumDataCodewords(ver, ecl) && Protects(ver, ecl, data, codewords)
    ensures var lay := LayoutOf(ver, ecl);
      && lay.Valid() && |codewords| == lay.RowStart(lay.Width())
      && ReadData(lay, codewords, lay.numBlocks) == data
      && forall j: nat :: j < lay.numBlocks ==> |ReadBlock(lay, codewords, j)| <= 255
  {
    hide *;
    LayoutOfSound(ver, ecl);
    ProtectsMeans(ver, ecl, data, codewords);
    var lay := LayoutOf(ver, ecl);
    ReadsDataUpTo(lay, data, codewords, lay.numBlocks);
    forall j: nat | j < lay.numBlocks
      ensures |ReadBlock(lay, codewords, j)| <= 255
    {
      BlockIsShort(lay, codewords, j);
    }
    assert data[..|data|] == data;
  }

  lemma BlockIsShort(lay: Layout, codewords: seq<bv8>, j: nat)
    requires lay.Valid() && lay.Width() <= 255 && |codewords| == lay.RowStart(lay.Width()) && j < lay.numBlocks
    ensures |ReadBlock(lay, codewords, j)| <= 255
  {
    hide ReadBlock, Layout.RowStart;
  }

  lemma ProtectsMeans(ver: int, ecl: Ecc, data: seq<bv8>, codewords: seq<bv8>)
    requires IsVersion(ver) && |data| == NumDataCodewords(ver, ecl) && Protects(ver, ecl, data, codewords)
    ensures var lay := LayoutOf(ver, ecl);
      && lay.Valid() && |codewords| == RawCodewords(ver) == lay.RowStart(lay.Width())
        && |data| == lay.DataStart(lay.numBlocks)
      && forall j: nat :: j < lay.numBlocks ==>
        ReadBlock(lay, codewords, j) == Codeword(DataBlock(lay, data, j), lay.eccLen)
  {
    LayoutOfSound(ver, ecl);
    hide NumBlocks, BlockEccLen, RawCodewords, Layout.DataStart, Layout.RowStart, LayoutOf, ReadBlock, Codeword,
      DataBlock;
  }
}
