/** What a reader relies on in a finished symbol: every pattern, and both copies of format and version, are intact. */
module FinishedPatterns {
  import opened QrTables
  import opened CodewordBlocks
  import opened SymbolEncoder
  import opened ZigzagScan
  import opened Penalty
  import opened QrGrid
  import opened FunctionPatterns
  import opened FunctionCount
  import opened PatternShapes
  import opened IntactPatterns
  import opened QrSymbol
  import opened SymbolDecoder

  /** Codewords and masks leave the function modules as they were drawn, the format bits aside. */
  lemma FunctionsKept(ver: int, ecl: Ecc, data: seq<bv8>, asked: int, msk: int, final: Grid, c: Cell)
    requires IsVersion(ver) && IsSymbol(ver, ecl, data, asked, msk, final)
    requires 0 <= c.x < SizeOf(ver) && 0 <= c.y < SizeOf(ver) && IsFunction(ver, c) && !IsFormatCell(SizeOf(ver), c)
    ensures Square(final) && |final| == SizeOf(ver) && At(final, c) == At(PatternGrid(ver, ecl), c)
  {
    hide *;
    var start, functions := PatternGrid(ver, ecl), FunctionMarks(ver);
    var codewords := SymbolCodewords(ver, ecl, data, asked, msk, final);
    MarksReady(ver);
    DrawnMarks(ver);
    MarksAreFunctions(ver, c);
    var unmasked := Unmasked(start, functions, ver, ecl, data, asked, codewords, msk, final);
    InSymbol(start, ver, c);
    TrialAt(unmasked, functions, ecl, msk);
    RoomForCodewords(ver);
    DrawnExactly(start, functions, CodewordBits(codewords));
    InSymbol(unmasked, ver, c);
  }

  lemma InSymbol(g: Grid, ver: int, c: Cell)
    requires IsVersion(ver) && Square(g) && |g| == SizeOf(ver)
    requires 0 <= c.x < SizeOf(ver) && 0 <= c.y < SizeOf(ver)
    ensures InGrid(g, c) && IsSize(|g|)
  {}

  /** The symbol is the trial of its mask on the drawn codewords. */
  lemma Unmasked(start: Grid, functions: Grid, ver: int, ecl: Ecc, data: seq<bv8>, asked: int, codewords: seq<bv8>,
                 msk: int, final: Grid)
    returns (unmasked: Grid)
    requires Square(functions) && IsSymbolOf(start, functions, ver, ecl, data, asked, codewords, msk, final)
    ensures IsVersion(ver) && |codewords| == RawCodewords(ver)
    ensures unmasked == PutBits(start, FreeScan(functions), CodewordBits(codewords))
    ensures Square(unmasked) && |unmasked| == |functions| && 0 <= msk < 8
    ensures final == Trial(unmasked, functions, ecl, msk)
  {
    unmasked := PutBits(start, FreeScan(functions), CodewordBits(codewords));
    hide PutBits, FreeScan, CodewordBits, Protects, NumDataCodewords, RawCodewords, Trial, IsBest;
    ProtectedLength(ver, ecl, data, codewords);
  }

  lemma PatternIsFunction(ver: int, k: nat, c: Cell)
    requires IsVersion(ver) && k < |FirstPatterns(ver)| && Covers(FirstPatterns(ver)[k], SizeOf(ver), c)
    ensures IsFunction(ver, c)
  {
    FirstPatternsCover(ver, c);
    hide FirstPatterns, Covers, InAlignment;
    assert CoveredBy(FirstPatterns(ver), SizeOf(ver), c);
  }

  /** In the finished symbol every module of a finder or alignment pattern, and every module of the timing lines outside
      the finder patterns, is as its pattern has it, whatever the data and the mask. */
  lemma FinishedPatternsIntact(ver: int, ecl: Ecc, data: seq<bv8>, asked: int, msk: int, final: Grid, k: nat, c: Cell)
    requires IsVersion(ver) && IsSymbol(ver, ecl, data, asked, msk, final)
    requires 0 <= c.x < SizeOf(ver) && 0 <= c.y < SizeOf(ver)
    requires k < |FirstPatterns(ver)| && Covers(FirstPatterns(ver)[k], SizeOf(ver), c)
    requires k == 0 ==> !InFinder(SizeOf(ver), c)
    ensures At(final, c) == ShowsDark(FirstPatterns(ver)[k], SizeOf(ver), c)
  {
    hide *;
    PatternIsFunction(ver, k, c);
    NotLater(ver, k, c);
    FunctionsKept(ver, ecl, data, asked, msk, final, c);
    PatternsIntact(ver, ecl, k, c);
  }

  /** The finished symbol shows the format word of its level and mask in both copies, and the module that is always
      dark. */
  lemma FinishedFormat(ver: int, ecl: Ecc, data: seq<bv8>, asked: int, msk: int, final: Grid, i: nat)
    requires IsVersion(ver) && IsSymbol(ver, ecl, data, asked, msk, final) && i < 15
    ensures 0 <= msk < 8
    ensures At(final, FirstCell(i)) == GetBit(FormatWord(ecl, msk), i)
    ensures At(final, SecondCell(SizeOf(ver), i)) == GetBit(FormatWord(ecl, msk), i)
    ensures At(final, Cell(8, SizeOf(ver) - 8))
  {
    hide *;
    var start, functions := PatternGrid(ver, ecl), FunctionMarks(ver);
    var codewords := SymbolCodewords(ver, ecl, data, asked, msk, final);
    MarksReady(ver);
    var unmasked := Unmasked(start, functions, ver, ecl, data, asked, codewords, msk, final);
    FormatOfTrial(unmasked, functions, ver, ecl, msk, i);
  }

  lemma FormatOfTrial(g: Grid, functions: Grid, ver: int, ecl: Ecc, msk: nat, i: nat)
    requires IsVersion(ver) && msk < 8 && i < 15
    requires Square(g) && Square(functions) && |g| == |functions| == SizeOf(ver)
    ensures var final := Trial(g, functions, ecl, msk);
      && At(final, FirstCell(i)) == GetBit(FormatWord(ecl, msk), i)
      && At(final, SecondCell(SizeOf(ver), i)) == GetBit(FormatWord(ecl, msk), i)
      && At(final, Cell(8, SizeOf(ver) - 8))
  {
    var bits := FormatBits(FormatWord(ecl, msk));
    assert bits[i] == GetBit(FormatWord(ecl, msk), i) && bits[15];
    hide FormatBits, GetBit, FormatWord, Masked, WithFormat, At, FirstCell;
    CopiesShown(Masked(g, functions, msk), bits, i);
    CopiesShown(Masked(g, functions, msk), bits, 15);
  }

  /** From version 7 on the finished symbol shows the version word in both blocks. */
  lemma FinishedVersion(ver: int, ecl: Ecc, data: seq<bv8>, asked: int, msk: int, final: Grid, i: nat, c: Cell)
    requires 7 <= ver <= 40 && IsVersion(ver) && IsSymbol(ver, ecl, data, asked, msk, final) && i < 18
    requires c == Cell(SizeOf(ver) - 11 + i % 3, i / 3) || c == Cell(i / 3, SizeOf(ver) - 11 + i % 3)
    ensures At(final, c) == GetBit(VersionWord(ver), i)
  {
    hide *;
    VersionBitIs(ver, i);
    VersionBlocks(ver, i, c);
    VersionShown(ver, ecl, data, asked, msk, final, c);
  }

  lemma VersionBitIs(ver: int, i: nat)
    requires IsVersion(ver) && i < 18
    ensures VersionBit(ver, i) == GetBit(VersionWord(ver), i)
  {
    hide GetBit, VersionWord;
  }

  lemma VersionShown(ver: int, ecl: Ecc, data: seq<bv8>, asked: int, msk: int, final: Grid, c: Cell)
    requires IsVersion(ver) && IsSymbol(ver, ecl, data, asked, msk, final) && ver >= 7
    requires Covers(VersionInfo(ver), SizeOf(ver), c)
    ensures At(final, c) == ShowsDark(VersionInfo(ver), SizeOf(ver), c)
  {
    VersionCell(ver, c);
    hide *;
    FunctionsKept(ver, ecl, data, asked, msk, final, c);
    VersionPainted(ver, ecl, c);
  }

  lemma VersionCell(ver: int, c: Cell)
    requires IsVersion(ver) && ver >= 7 && Covers(VersionInfo(ver), SizeOf(ver), c)
    ensures 0 <= c.x < SizeOf(ver) && 0 <= c.y < SizeOf(ver) && IsFunction(ver, c) && !IsFormatCell(SizeOf(ver), c)
  {}

  lemma VersionPainted(ver: int, ecl: Ecc, c: Cell)
    requires IsVersion(ver) && 0 <= c.x < SizeOf(ver) && 0 <= c.y < SizeOf(ver)
    requires Covers(VersionInfo(ver), SizeOf(ver), c)
    ensures At(PatternGrid(ver, ecl), c) == ShowsDark(VersionInfo(ver), SizeOf(ver), c)
  {
    var first := PaintedAll(Blank(SizeOf(ver)), FirstPatterns(ver), false);
    var g := WithFormat(first, FormatBits(FormatWord(ecl, 0)));
    PaintedAt(g, VersionInfo(ver), false);
    hide Painted, WithFormat, PaintedAll, FirstPatterns, FormatBits, FormatWord, ShowsDark, Covers, At, SizeOf;
    assert InGrid(g, c);
  }
}
