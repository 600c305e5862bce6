/** A reader for finished symbols, and the proof that it recovers from the modules what the encoder put in. */
module SymbolDecoder {
  import opened Wrappers
  import opened Galois
  import opened QrTables
  import opened ReedSolomon
  import opened CodeDistance
  import opened CodewordBlocks
  import opened Segments
  import opened SymbolEncoder
  import opened SymbolReader
  import opened ZigzagScan
  import opened Penalty
  import opened QrGrid
  import opened FunctionPatterns
  import opened FunctionCount
  import opened QrSymbol

  // ---------- The format word ----------

  /** The mask number in the format bits of a symbol. */
  function ReadMask(g: Grid): (msk: nat)
    ensures msk < 8
  {
    (if At(g, FirstCell(10)) then 0 else 1) + (if At(g, FirstCell(11)) then 2 else 0)
      + (if At(g, FirstCell(12)) then 0 else 4)
  }

  /** The error correction level in the format bits of a symbol. */
  function ReadLevel(g: Grid): Ecc {
    if At(g, FirstCell(14)) then (if At(g, FirstCell(13)) then LOW else MEDIUM)
    else (if At(g, FirstCell(13)) then QUARTILE else HIGH)
  }

  /** Division steps keep the remainder within ten bits. */
  lemma BchStepSmall(rem: bv32)
    requires rem < 0x400
    ensures BchStep(rem) < 0x400
  {}

  lemma {:induction false} BchSmall(data: bv32, steps: nat)
    requires data < 0x400
    ensures BchRemainder(data, steps) < 0x400
  {
    hide BchStep;
    if steps > 0 {
      BchSmall(data, steps - 1);
      BchStepSmall(BchRemainder(data, steps - 1));
    }
  }

  /** The bits of the mask and of the level's code, inverted where the mask word has a one. */
  function ExpectedBit(ecl: Ecc, msk: nat, i: nat): bool {
    match i
    case 10 => msk % 2 == 0
    case 11 => msk / 2 % 2 == 1
    case 12 => msk < 4
    case 13 => ecl == LOW || ecl == QUARTILE
    case _ => ecl == LOW || ecl == MEDIUM
  }

  function DataBit(data: bv32, i: nat): bool {
    match i
    case 10 => data & 0x01 == 0
    case 11 => data & 0x02 != 0
    case 12 => data & 0x04 == 0
    case 13 => data & 0x08 != 0
    case _ => data & 0x10 == 0
  }

  lemma HighBit(data: bv32, rem: bv32, word: bv32, i: nat)
    requires data < 0x20 && rem < 0x400 && word == ((data << 10) | rem) ^ 0x5412 && 10 <= i < 15
    ensures GetBit(word, i) == DataBit(data, i)
  {
    match i
    case 10 => assert GetBit(word, 10) == DataBit(data, 10);
    case 11 => assert GetBit(word, 11) == DataBit(data, 11);
    case 12 => assert GetBit(word, 12) == DataBit(data, 12);
    case 13 => assert GetBit(word, 13) == DataBit(data, 13);
    case _ => assert GetBit(word, 14) == DataBit(data, 14);
  }

  lemma FormatData(ecl: Ecc, msk: nat, data: bv32, i: nat)
    requires msk < 8 && data == (FormatCode(ecl) << 3) | (msk as bv32) && 10 <= i < 15
    ensures data < 0x20 && DataBit(data, i) == ExpectedBit(ecl, msk, i)
  {
    match msk
    case 0 => assert (msk as bv32) == 0;
    case 1 => assert (msk as bv32) == 1;
    case 2 => assert (msk as bv32) == 2;
    case 3 => assert (msk as bv32) == 3;
    case 4 => assert (msk as bv32) == 4;
    case 5 => assert (msk as bv32) == 5;
    case 6 => assert (msk as bv32) == 6;
    case 7 => assert (msk as bv32) == 7;
  }

  lemma FormatBitRead(ecl: Ecc, msk: nat, i: nat)
    requires msk < 8 && 10 <= i < 15
    ensures FormatBits(FormatWord(ecl, msk))[i] == ExpectedBit(ecl, msk, i)
  {
    hide *;
    var data: bv32 := (FormatCode(ecl) << 3) | (msk as bv32);
    FormatData(ecl, msk, data, i);
    BchSmall(data, 10);
    FormatWordIs(ecl, msk, data);
    HighBit(data, BchRemainder(data, 10), FormatWord(ecl, msk), i);
    FormatBitIs(FormatWord(ecl, msk), i);
  }

  lemma FormatBitIs(word: bv32, i: nat)
    requires i < 15
    ensures FormatBits(word)[i] == GetBit(word, i)
  {
    hide GetBit;
  }

  lemma FormatCellAt(g: Grid, functions: Grid, ecl: Ecc, msk: nat, i: nat)
    requires Square(g) && Square(functions) && |g| == |functions| && 21 <= |g| && msk < 8 && 10 <= i < 15
    ensures At(Trial(g, functions, ecl, msk), FirstCell(i)) == ExpectedBit(ecl, msk, i)
  {
    hide *;
    FirstCellIs(g, i, FormatBits(FormatWord(ecl, msk)));
    FormatBitRead(ecl, msk, i);
    TrialAt(g, functions, ecl, msk);
  }

  lemma FirstCellIs(g: Grid, i: nat, bits: seq<bool>)
    requires Square(g) && 21 <= |g| && 10 <= i < 15 && |bits| == 16
    ensures InGrid(g, FirstCell(i)) && IsFormatCell(|g|, FirstCell(i))
      && FormatValue(|g|, bits, FirstCell(i)) == bits[i]
  {
    assert FirstIndex(FirstCell(i)) == i;
  }

  /** A symbol's format bits tell the mask and the level that it was made with. */
  lemma FormatReadBack(g: Grid, functions: Grid, ecl: Ecc, msk: nat)
    requires Square(g) && Square(functions) && |g| == |functions| && 21 <= |g| && msk < 8
    ensures ReadMask(Trial(g, functions, ecl, msk)) == msk && ReadLevel(Trial(g, functions, ecl, msk)) == ecl
  {
    hide Trial, FormatBits, FormatWord, At, FirstCell;
    FormatCellAt(g, functions, ecl, msk, 10);
    FormatCellAt(g, functions, ecl, msk, 11);
    FormatCellAt(g, functions, ecl, msk, 12);
    FormatCellAt(g, functions, ecl, msk, 13);
    FormatCellAt(g, functions, ecl, msk, 14);
  }

  // ---------- Codewords ----------

  function ByteFrom(b7: bool, b6: bool, b5: bool, b4: bool, b3: bool, b2: bool, b1: bool, b0: bool): bv8 {
    (if b7 then 0x80 else 0) | (if b6 then 0x40 else 0) | (if b5 then 0x20 else 0) | (if b4 then 0x10 else 0) |
    (if b3 then 0x08 else 0) | (if b2 then 0x04 else 0) | (if b1 then 0x02 else 0) | (if b0 then 0x01 else 0)
  }

  lemma ByteFromBits(b: bv8)
    ensures ByteFrom(Bit(b, 7), Bit(b, 6), Bit(b, 5), Bit(b, 4), Bit(b, 3), Bit(b, 2), Bit(b, 1), Bit(b, 0)) == b
  {}

  /** The first `n` bytes of a bit string. */
  function BytesOf(bits: seq<bool>, n: nat): (codewords: seq<bv8>)
    requires 8 * n <= |bits|
    ensures |codewords| == n
  {
    seq(n, k requires 0 <= k < n =>
      ByteFrom(bits[8 * k], bits[8 * k + 1], bits[8 * k + 2], bits[8 * k + 3],
               bits[8 * k + 4], bits[8 * k + 5], bits[8 * k + 6], bits[8 * k + 7]))
  }

  lemma BitsOfByte(codewords: seq<bv8>, bits: seq<bool>, k: nat)
    requires 8 * |codewords| <= |bits| && bits[..8 * |codewords|] == CodewordBits(codewords) && k < |codewords|
    ensures var b := codewords[k];
      && bits[8 * k] == Bit(b, 7) && bits[8 * k + 1] == Bit(b, 6) && bits[8 * k + 2] == Bit(b, 5)
        && bits[8 * k + 3] == Bit(b, 4)
      && bits[8 * k + 4] == Bit(b, 3) && bits[8 * k + 5] == Bit(b, 2) && bits[8 * k + 6] == Bit(b, 1)
        && bits[8 * k + 7] == Bit(b, 0)
  {
    hide Bit, CodewordBits;
    BitOfByte(codewords, k, 0);
    BitOfByte(codewords, k, 1);
    BitOfByte(codewords, k, 2);
    BitOfByte(codewords, k, 3);
    BitOfByte(codewords, k, 4);
    BitOfByte(codewords, k, 5);
    BitOfByte(codewords, k, 6);
    BitOfByte(codewords, k, 7);
    var read := bits[..8 * |codewords|];
    assert read[8 * k] == bits[8 * k];
  }

  lemma BitOfByte(codewords: seq<bv8>, k: nat, j: nat)
    requires k < |codewords| && j < 8
    ensures CodewordBits(codewords)[8 * k + j] == Bit(codewords[k], 7 - j)
  {
    hide Bit;
    assert (8 * k + j) / 8 == k;
  }

  lemma BytesRead(codewords: seq<bv8>, bits: seq<bool>)
    requires 8 * |codewords| <= |bits| && bits[..8 * |codewords|] == CodewordBits(codewords)
    ensures BytesOf(bits, |codewords|) == codewords
  {
    hide Bit, CodewordBits, ByteFrom;
    forall k: nat | k < |codewords|
      ensures BytesOf(bits, |codewords|)[k] == codewords[k]
    {
      BitsOfByte(codewords, bits, k);
      ByteFromBits(codewords[k]);
    }
  }

  /** A symbol's bits in scan order, with the mask taken off that its format bits name. */
  function SymbolBits(g: Grid, functions: Grid): (bits: seq<bool>)
    requires Square(g) && Square(functions) && |g| == |functions|
    ensures |bits| == |FreeScan(functions)|
  {
    ReadCells(Masked(g, functions, ReadMask(g)), FreeScan(functions))
  }

  predicate HasRoom(functions: Grid, ver: int) {
    IsVersion(ver) && |functions| == 4 * ver + 17 && 8 * RawCodewords(ver) <= |FreeScan(functions)|
  }

  /** A symbol's codewords. */
  function ReadCodewords(g: Grid, functions: Grid, ver: int): (codewords: seq<bv8>)
    requires Square(g) && Square(functions) && |g| == |functions| && HasRoom(functions, ver)
    ensures |codewords| == RawCodewords(ver)
  {
    LayoutOfSound(ver, LOW);
    BytesOf(SymbolBits(g, functions), RawCodewords(ver))
  }

  /** The cells read are not format cells, so taking the mask off gives back all codeword bits. */
  lemma TrialBits(start: Grid, functions: Grid, bits: seq<bool>, ecl: Ecc, msk: nat)
    requires Square(start) && FormatReserved(functions) && |start| == |functions| && IsSize(|start|) && msk < 8
    requires |bits| <= |FreeScan(functions)|
    ensures var unmasked := PutBits(start, FreeScan(functions), bits);
      && Square(unmasked) && |unmasked| == |functions|
      && ReadCells(Masked(Trial(unmasked, functions, ecl, msk), functions, msk), FreeScan(functions))[..|bits|] == bits
  {
    var free := FreeScan(functions);
    var unmasked := PutBits(start, free, bits);
    FreeScanInGrid(start, functions);
    PutBitsExact(start, free, bits);
    DrawnExactly(start, functions, bits);
    TrialUndone(unmasked, functions, ecl, msk);
    hide *;
    FormatLeavesFree(unmasked, functions, FormatBits(FormatWord(ecl, msk)));
  }

  lemma FormatLeavesFree(g: Grid, functions: Grid, bits: seq<bool>)
    requires Square(g) && FormatReserved(functions) && |g| == |functions| && IsSize(|g|) && |bits| == 16
    requires AllIn(g, FreeScan(functions)) && AllIn(WithFormat(g, bits), FreeScan(functions))
    ensures ReadCells(WithFormat(g, bits), FreeScan(functions)) == ReadCells(g, FreeScan(functions))
  {
    var free := FreeScan(functions);
    WithFormatAt(g, bits);
    FreeScanIsFree(g, functions);
    hide FreeScan, WithFormat, IsFormatCell, FormatValue, At;
    forall k | 0 <= k < |free|
      ensures At(WithFormat(g, bits), free[k]) == At(g, free[k])
    {
      assert InGrid(g, free[k]) && !IsFormatCell(|g|, free[k]);
    }
  }

  lemma FreeScanIsFree(g: Grid, functions: Grid)
    requires Square(g) && Square(functions) && |g| == |functions| && IsSize(|g|)
    ensures forall k :: 0 <= k < |FreeScan(functions)| ==>
      InGrid(g, FreeScan(functions)[k]) && !At(functions, FreeScan(functions)[k])
  {
    FreeScanInGrid(g, functions);
    ScanExact(|g|);
    FreeCellsExact(Scan(|g|), functions);
    hide Scan, At;
    var free := FreeScan(functions);
    forall k | 0 <= k < |free|
      ensures !At(functions, free[k])
    {
      assert free[k] in free;
    }
  }

  /** Reading a finished symbol gives the codewords that were drawn, whichever mask was chosen. */
  lemma CodewordsRoundTrip(start: Grid, functions: Grid, ver: int, ecl: Ecc, data: seq<bv8>, asked: int,
          codewords: seq<bv8>,
                           msk: int, final: Grid)
    requires Square(start) && |start| == |functions| && FormatReserved(functions) && HasRoom(functions, ver)
    requires IsSymbolOf(start, functions, ver, ecl, data, asked, codewords, msk, final)
    ensures Square(final) && |final| == |functions|
    ensures ReadMask(final) == msk && ReadLevel(final) == ecl && ReadCodewords(final, functions, ver) == codewords
  {
    hide Protects, IsBest, Trial, Masked, PutBits, FreeScan, CodewordBits, RawCodewords, NumDataCodewords, ReadMask,
      ReadLevel;
    hide ReadCells, BytesOf;
    ProtectedLength(ver, ecl, data, codewords);
    var bits := CodewordBits(codewords);
    var unmasked := PutBits(start, FreeScan(functions), bits);
    TrialBits(start, functions, bits, ecl, msk);
    FormatReadBack(unmasked, functions, ecl, msk);
    BytesRead(codewords, SymbolBits(final, functions));
  }

  /** Reads a symbol: the level and the mask from the format bits, the codewords from the other modules, the data from
      the blocks, and the segments from the data. */
  function Decode(g: Grid, functions: Grid, ver: int): Option<seq<Item>>
    requires Square(g) && Square(functions) && |g| == |functions| && HasRoom(functions, ver)
  {
    Parse(CodewordBits(DataOf(ReadCodewords(g, functions, ver), ver, ReadLevel(g))), ver)
  }

  /** The data codewords among the codewords of a symbol. */
  function DataOf(codewords: seq<bv8>, ver: int, ecl: Ecc): seq<bv8>
    requires IsVersion(ver) && |codewords| == RawCodewords(ver)
  {
    LayoutOfSound(ver, ecl);
    ReadData(LayoutOf(ver, ecl), codewords, LayoutOf(ver, ecl).numBlocks)
  }

  /** Whatever mask is chosen, a symbol made of encoded segments is read back as the items the segments were made of. */
  lemma SymbolRoundTrip(items: seq<Item>, e: Encoded, start: Grid, functions: Grid, asked: int, codewords: seq<bv8>,
                        msk: int, final: Grid)
    requires forall k :: 0 <= k < |items| ==> Encodable(items[k])
    requires IsEncoding(SegmentsOf(items), e)
    requires Square(start) && |start| == |functions| && FormatReserved(functions) && HasRoom(functions, e.version)
    requires IsSymbolOf(start, functions, e.version, e.ecl, e.dataCodewords, asked, codewords, msk, final)
    ensures Square(final) && |final| == |functions| && Decode(final, functions, e.version) == Some(items)
  {
    hide IsEncoding, IsSymbolOf, Parse, ReadCodewords, ReadLevel, FreeScan;
    SymbolParts(start, functions, e.version, e.ecl, e.dataCodewords, asked, codewords, msk, final);
    CodewordsRoundTrip(start, functions, e.version, e.ecl, e.dataCodewords, asked, codewords, msk, final);
    ReadsBack(e.version, e.ecl, e.dataCodewords, codewords);
    EncodingRoundTrip(items, e);
  }

  lemma SymbolParts(start: Grid, functions: Grid, ver: int, ecl: Ecc, data: seq<bv8>, asked: int, codewords: seq<bv8>,
                    msk: int, final: Grid)
    requires Square(functions) && IsSymbolOf(start, functions, ver, ecl, data, asked, codewords, msk, final)
    ensures IsVersion(ver) && |data| == NumDataCodewords(ver, ecl) && Protects(ver, ecl, data, codewords)
  {}

  /** Reads a symbol that is given by its modules alone: its size tells the version, and the version the function
      patterns. */
  function DecodeSymbol(g: Grid): Option<seq<Item>> {
    var ver := (|g| - 17) / 4;
    if Square(g) && |g| == ver * 4 + 17 && IsVersion(ver) then
      RoomForCodewords(ver);
      Decode(g, FunctionMarks(ver), ver)
    else None
  }

  /** The symbol made of the encoding of any items is read back as these items, from its modules alone. */
  lemma FinishedSymbolRoundTrip(items: seq<Item>, e: Encoded, asked: int, msk: int, final: Grid)
    requires forall k :: 0 <= k < |items| ==> Encodable(items[k])
    requires IsEncoding(SegmentsOf(items), e) && IsSymbol(e.version, e.ecl, e.dataCodewords, asked, msk, final)
    ensures DecodeSymbol(final) == Some(items)
  {
    assert IsVersion(e.version);
    hide *;
    var ver := e.version;
    var codewords := SymbolCodewords(ver, e.ecl, e.dataCodewords, asked, msk, final);
    MarksReady(ver);
    DrawnMarks(ver);
    SymbolRoundTrip(items, e, PatternGrid(ver, e.ecl), FunctionMarks(ver), asked, codewords, msk, final);
    DecodeSymbolIs(final, ver);
  }

  lemma SymbolCodewords(ver: int, ecl: Ecc, data: seq<bv8>, asked: int, msk: int, final: Grid)
    returns (codewords: seq<bv8>)
    requires IsVersion(ver) && IsSymbol(ver, ecl, data, asked, msk, final)
    ensures IsSymbolOf(PatternGrid(ver, ecl), FunctionMarks(ver), ver, ecl, data, asked, codewords, msk, final)
  {
    hide IsSymbolOf, PatternGrid, FunctionMarks;
    codewords :| IsSymbolOf(PatternGrid(ver, ecl), FunctionMarks(ver), ver, ecl, data, asked, codewords, msk, final);
  }

  lemma MarksReady(ver: int)
    requires IsVersion(ver)
    ensures Square(FunctionMarks(ver)) && |FunctionMarks(ver)| == SizeOf(ver) && HasRoom(FunctionMarks(ver), ver)
    ensures forall ecl :: Square(PatternGrid(ver, ecl)) && |PatternGrid(ver, ecl)| == SizeOf(ver)
  {
    RoomForCodewords(ver);
    hide FreeScan, RawCodewords;
  }

  lemma DecodeSymbolIs(g: Grid, ver: int)
    requires IsVersion(ver) && Square(g) && |g| == SizeOf(ver) && HasRoom(FunctionMarks(ver), ver)
    ensures DecodeSymbol(g) == Decode(g, FunctionMarks(ver), ver)
  {
    hide Decode, FunctionMarks, HasRoom;
  }

  /** Encodes segments in the smallest version with room and makes the symbol. */
  method EncodeSymbol(segs: seq<Segment>, ecl: Ecc, minVersion: int, maxVersion: int, mask: int, boostEcl: bool)
    returns (r: Result<QrCode, EncodeError>)
    ensures r.Err? ==> EncodesAs(segs, ecl, minVersion, maxVersion, mask, boostEcl, Err(r.error))
    ensures r.Ok? ==> r.value.Valid() && IsVersion(r.value.version)
    ensures r.Ok? ==> exists data ::
      && EncodesAs(segs, ecl, minVersion, maxVersion, mask, boostEcl, Ok(Encoded(r.value.version, r.value.ecl, data)))
      && IsSymbol(r.value.version, r.value.ecl, data, mask, r.value.mask, r.value.Modules())
    ensures r.Ok? ==>
      forall items: seq<Item> :: StandFor(items, segs) ==> DecodeSymbol(r.value.Modules()) == Some(items)
  {
    hide *;
    var encoded := EncodeSegments(segs, ecl, minVersion, maxVersion, mask, boostEcl);
    if encoded.Err? {
      return Err(encoded.error);
    }
    var e := encoded.value;
    EncodedMeans(segs, ecl, minVersion, maxVersion, mask, boostEcl, e);
    var symbol := QrCode.Create(e.version, e.ecl, e.dataCodewords, mask);
    CreateSucceeds(symbol);
    assert e == Encoded(symbol.value.version, symbol.value.ecl, e.dataCodewords);
    forall items: seq<Item> | StandFor(items, segs)
      ensures DecodeSymbol(symbol.value.Modules()) == Some(items)
    {
      StandForMeans(items, segs);
      FinishedSymbolRoundTrip(items, e, mask, symbol.value.mask, symbol.value.Modules());
    }
    r := Ok(symbol.value);
  }

  /** The segments are those that the factories make of the items. */
  ghost predicate StandFor(items: seq<Item>, segs: seq<Segment>) {
    (forall k :: 0 <= k < |items| ==> Encodable(items[k])) && segs == SegmentsOf(items)
  }

  lemma StandForMeans(items: seq<Item>, segs: seq<Segment>)
    requires StandFor(items, segs)
    ensures (forall k :: 0 <= k < |items| ==> Encodable(items[k])) && segs == SegmentsOf(items)
  {}

  lemma EncodedMeans(segs: seq<Segment>, ecl: Ecc, minVersion: int, maxVersion: int, mask: int, boostEcl: bool,
          e: Encoded)
    requires EncodesAs(segs, ecl, minVersion, maxVersion, mask, boostEcl, Ok(e))
    ensures IsVersion(e.version) && -1 <= mask <= 7 && IsEncoding(segs, e)
    ensures |e.dataCodewords| == NumDataCodewords(e.version, e.ecl)
  {
    hide Fits, IsStrongest, NumDataCodewords, StreamBits, CountsFit, Padding;
  }

  lemma CreateSucceeds(r: Result<QrCode, BuildError>)
    requires !(r.Err? && r.error == DomainError) && !(r.Err? && r.error == InvalidArgument)
    ensures r.Ok?
  {}

  /** Damage of at most half the correction bytes in each block leaves only one data sequence that the read codewords
      can stand for. */
  lemma DamageIsCorrectable(ver: int, ecl: Ecc, data: seq<bv8>, codewords: seq<bv8>, other: seq<bv8>,
          otherCodewords: seq<bv8>, read: seq<bv8>)
    requires IsVersion(ver) && |data| == NumDataCodewords(ver, ecl) == |other| && |read| == RawCodewords(ver)
    requires Protects(ver, ecl, data, codewords) && Protects(ver, ecl, other, otherCodewords)
    requires Correctable(ver, ecl, read, codewords) && Correctable(ver, ecl, read, otherCodewords)
    ensures data == other
  {
    ReadsBack(ver, ecl, data, codewords);
    ReadsBack(ver, ecl, other, otherCodewords);
    LayoutOfSound(ver, ecl);
    var lay := LayoutOf(ver, ecl);
    hide LayoutOf, RawCodewords, NumDataCodewords, Layout.RowStart, Layout.DataStart, ReadBlock, ReadData, Codeword,
      DataBlock, Distance;
    forall j: nat | j < lay.numBlocks
      ensures ReadBlock(lay, codewords, j) == ReadBlock(lay, otherCodewords, j)
    {
      UniqueDecoding(DataBlock(lay, data, j), DataBlock(lay, other, j), lay.eccLen, ReadBlock(lay, read, j));
    }
    SameBlocks(lay, codewords, otherCodewords, lay.numBlocks);
  }

  /** In every block, at most half as many bytes differ as there are correction bytes. */
  ghost predicate Correctable(ver: int, ecl: Ecc, a: seq<bv8>, b: seq<bv8>)
    requires IsVersion(ver) && |a| == RawCodewords(ver)
  {
    LayoutOfSound(ver, ecl);
    var lay := LayoutOf(ver, ecl);
    |b| == |a| && forall j: nat :: j < lay.numBlocks ==>
      Distance(ReadBlock(lay, a, j), ReadBlock(lay, b, j)) <= lay.eccLen / 2
  }

  lemma {:induction false} SameBlocks(lay: Layout, a: seq<bv8>, b: seq<bv8>, h: nat)
    requires lay.Valid() && |a| == |b| == lay.RowStart(lay.Width()) && h <= lay.numBlocks
    requires forall j: nat :: j < h ==> ReadBlock(lay, a, j) == ReadBlock(lay, b, j)
    ensures ReadData(lay, a, h) == ReadData(lay, b, h)
  {
    hide ReadBlock, Layout.RowStart;
    if h > 0 {
      SameBlocks(lay, a, b, h - 1);
    }
  }
}
