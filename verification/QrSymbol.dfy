/** The symbol under construction: its grids are changed in place. */
module QrSymbol {
  import opened Common
  import opened Wrappers
  import opened Galois
  import opened QrTables
  import opened CodewordBlocks
  import opened SymbolEncoder
  import opened ZigzagScan
  import opened Penalty
  import opened PenaltyBound
  import opened QrGrid
  import opened FunctionPatterns
  import opened FunctionCount

  /** The smallest value that the source's limit for penalties can have. */
  const LONG_MAX := 0x7FFF_FFFF

  datatype BuildError = DomainError | InvalidArgument

  class QrCode {
    const version: int
    const ecl: Ecc
    const size: nat
    var mask: int
    const modules: array2<bool>
    const isFunction: array2<bool>

    predicate Valid() {
      && IsVersion(version) && size == version * 4 + 17
      && modules.Length0 == size && modules.Length1 == size
      && isFunction.Length0 == size && isFunction.Length1 == size
      && modules != isFunction
    }

    /** The current modules. */
    function Modules(): (g: Grid)
      requires Valid()
      reads modules
      ensures Square(g) && |g| == size
    {
      seq(size, y requires 0 <= y < size && Valid() reads modules =>
        seq(size, x requires 0 <= x < size && Valid() reads modules => modules[y, x]))
    }

    /** The current function module marks. */
    ghost function Functions(): (g: Grid)
      requires Valid()
      reads isFunction
      ensures Square(g) && |g| == size
    {
      seq(size, y requires 0 <= y < size && Valid() reads isFunction =>
        seq(size, x requires 0 <= x < size && Valid() reads isFunction => isFunction[y, x]))
    }

    /** A symbol with only light modules and no marks. */
    constructor (ver: int, level: Ecc)
      requires IsVersion(ver)
      ensures Valid() && version == ver && ecl == level && fresh(modules) && fresh(isFunction)
      ensures Modules() == Blank(size) && Functions() == Blank(size)
    {
      version, ecl, size := ver, level, ver * 4 + 17;
      modules := new bool[ver * 4 + 17, ver * 4 + 17]((_, _) => false);
      isFunction := new bool[ver * 4 + 17, ver * 4 + 17]((_, _) => false);
      mask := -1;
      new;
      assert forall y, x :: 0 <= y < size && 0 <= x < size ==> !modules[y, x] && !isFunction[y, x];
      GridsEqual(Modules(), Blank(size));
      GridsEqual(Functions(), Blank(size));
    }

    /** Sets a module and marks it as a function module. */
    method SetFunctionModule(x: nat, y: nat, isDark: bool)
      requires Valid() && x < size && y < size
      modifies modules, isFunction
      ensures Modules() == Set(old(Modules()), Cell(x, y), isDark)
      ensures Functions() == Set(old(Functions()), Cell(x, y), true)
    {
      modules[y, x] := isDark;
      isFunction[y, x] := true;
      SetExact(old(Modules()), Cell(x, y), isDark);
      SetExact(old(Functions()), Cell(x, y), true);
      GridsEqual(Modules(), Set(old(Modules()), Cell(x, y), isDark));
      GridsEqual(Functions(), Set(old(Functions()), Cell(x, y), true));
    }

    // ---------- Function patterns ----------

    /** Draws one module of a pattern. */
    method DrawPatternModule(ghost p: Pattern, x: nat, y: nat, isDark: bool, ghost g: Grid, ghost f: Grid,
            ghost done: iset<Cell>)
      requires Valid() && x < size && y < size && Square(g) && Square(f) && |g| == |f| == size
        && isDark == ShowsDark(p, size, Cell(x, y))
      requires Shown(Modules(), g, p, false, done) && Shown(Functions(), f, p, true, done)
      modifies modules, isFunction
      ensures Shown(Modules(), g, p, false, done + iset{Cell(x, y)})
        && Shown(Functions(), f, p, true, done + iset{Cell(x, y)})
    {
      hide *;
      InGridIs(g, x, y);
      InGridIs(f, x, y);
      ShownStep(Modules(), g, p, false, done, Cell(x, y), isDark);
      ShownStep(Functions(), f, p, true, done, Cell(x, y), true);
      SetFunctionModule(x, y, isDark);
    }

    lemma InGridIs(g: Grid, x: nat, y: nat)
      requires Valid() && Square(g) && |g| == size && x < size && y < size
      ensures InGrid(g, Cell(x, y))
    {}

    /** Draws the timing patterns. */
    method DrawTiming()
      requires Valid()
      modifies modules, isFunction
      ensures Modules() == Painted(old(Modules()), Timing, false)
        && Functions() == Painted(old(Functions()), Timing, true)
    {
      SizeOk();
      ghost var g, f := Modules(), Functions();
      ghost var done: iset<Cell> := iset{};
      ShownStart(g, Timing, false);
      ShownStart(f, Timing, true);
      hide Shown, Painted, Square;
      for i: nat := 0 to size
        invariant Shown(Modules(), g, Timing, false, done) && Shown(Functions(), f, Timing, true, done)
        invariant forall d: Cell :: d in done <==> (d.x == 6 && 0 <= d.y < i) || (d.y == 6 && 0 <= d.x < i)
      {
        DrawPatternModule(Timing, 6, i, i % 2 == 0, g, f, done);
        done := done + iset{Cell(6, i)};
        DrawPatternModule(Timing, i, 6, i % 2 == 0, g, f, done);
        done := done + iset{Cell(i, 6)};
      }
      ShownEnd(Modules(), g, Timing, false, done);
      ShownEnd(Functions(), f, Timing, true, done);
    }

    /** Draws a finder pattern with its light border, as far as it lies inside the symbol. */
    method DrawFinderPattern(x: int, y: int)
      requires Valid()
      modifies modules, isFunction
      ensures Modules() == Painted(old(Modules()), Finder(x, y), false)
        && Functions() == Painted(old(Functions()), Finder(x, y), true)
    {
      SizeOk();
      ghost var p := Finder(x, y);
      ghost var g, f := Modules(), Functions();
      ghost var done: iset<Cell> := iset{};
      ShownStart(g, p, false);
      ShownStart(f, p, true);
      hide Shown, Painted, Square;
      for dy := -4 to 5
        invariant Shown(Modules(), g, p, false, done) && Shown(Functions(), f, p, true, done)
        invariant forall d: Cell :: d in done <==> Inside(size, d) && -4 <= d.x - x <= 4 && -4 <= d.y - y < dy
      {
        for dx := -4 to 5
          invariant Shown(Modules(), g, p, false, done) && Shown(Functions(), f, p, true, done)
          invariant forall d: Cell :: d in done <==>
            Inside(size, d) && -4 <= d.x - x <= 4 && ((-4 <= d.y - y < dy) || (d.y - y == dy && d.x - x < dx))
        {
          var dist := if Abs(dx) > Abs(dy) then Abs(dx) else Abs(dy);
          var xx, yy := x + dx, y + dy;
          if 0 <= xx < size && 0 <= yy < size {
            DrawPatternModule(p, xx, yy, dist != 2 && dist != 4, g, f, done);
            done := done + iset{Cell(xx, yy)};
          }
        }
      }
      RingsNear(x, y);
      ShownEnd(Modules(), g, p, false, done);
      ShownEnd(Functions(), f, p, true, done);
    }

    /** Draws an alignment pattern. */
    method DrawAlignmentPattern(x: int, y: int)
      requires Valid() && 2 <= x < size - 2 && 2 <= y < size - 2
      modifies modules, isFunction
      ensures Modules() == Painted(old(Modules()), Alignment(x, y), false)
      ensures Functions() == Painted(old(Functions()), Alignment(x, y), true)
    {
      hide *;
      SizeOk();
      ghost var p := Alignment(x, y);
      ghost var g, f := Modules(), Functions();
      ShownStart(g, p, false);
      ShownStart(f, p, true);
      ScannedStart(x, y);
      for dy := -2 to 3
        invariant Shown(Modules(), g, p, false, Scanned(x, y, dy, -2))
          && Shown(Functions(), f, p, true, Scanned(x, y, dy, -2))
      {
        for dx := -2 to 3
          invariant Shown(Modules(), g, p, false, Scanned(x, y, dy, dx))
            && Shown(Functions(), f, p, true, Scanned(x, y, dy, dx))
        {
          ScannedStep(x, y, dy, dx);
          RingAt(x, y, dx, dy, size);
          var dist := if Abs(dx) > Abs(dy) then Abs(dx) else Abs(dy);
          DrawPatternModule(p, x + dx, y + dy, dist != 1, g, f, Scanned(x, y, dy, dx));
        }
        ScannedRow(x, y, dy);
      }
      ScannedAll(x, y, size);
      ShownEnd(Modules(), g, p, false, Scanned(x, y, 3, -2));
      ShownEnd(Functions(), f, p, true, Scanned(x, y, 3, -2));
    }

    /** The alignment positions, from the end to the front. */
    method GetAlignmentPatternPositions() returns (result: seq<int>)
      requires Valid()
      ensures |result| == NumAlign(version) && forall i :: 0 <= i < |result| ==> result[i] == AlignPosition(version, i)
    {
      if version == 1 {
        return [];
      }
      var numAlign := version / 7 + 2;
      var step := if version == 32 then 26 else (version * 4 + numAlign * 2 + 1) / (numAlign * 2 - 2) * 2;
      StepIs(version, size, numAlign, step);
      result := PositionsFromEnd(version, size, numAlign, step);
    }

    /** Draws all alignment patterns, except on the three finder corners. */
    method DrawAlignmentPatterns()
      requires Valid()
      modifies modules, isFunction
      ensures version >= 2 ==> Modules() == PaintedAll(old(Modules()), Alignments(version, NumAlign(version)), false)
      ensures version >= 2 ==> Functions() == PaintedAll(old(Functions()), Alignments(version, NumAlign(version)), true)
      ensures version < 2 ==> Modules() == old(Modules()) && Functions() == old(Functions())
    {
      hide *;
      SizeOk();
      ghost var g, f := Modules(), Functions();
      var alignPatPos := GetAlignmentPatternPositions();
      var numAlign := |alignPatPos|;
      NumAlignIs(version);
      if version >= 2 {
        AlignmentsUnfold(version, 0, 0);
        PaintedAllSnoc(g, [], Timing, false);
        PaintedAllSnoc(f, [], Timing, true);
      }
      for i := 0 to numAlign
        invariant version < 2 ==> numAlign == 0 && Modules() == g && Functions() == f
        invariant version >= 2 ==> Modules() == PaintedAll(g, Alignments(version, i), false)
        invariant version >= 2 ==> Functions() == PaintedAll(f, Alignments(version, i), true)
      {
        AlignmentsUnfold(version, i, 0);
        assert Alignments(version, i) + [] == Alignments(version, i);
        for j := 0 to numAlign
          invariant Modules() == PaintedAll(g, Alignments(version, i) + AlignmentsIn(version, i, j), false)
          invariant Functions() == PaintedAll(f, Alignments(version, i) + AlignmentsIn(version, i, j), true)
        {
          AlignmentsUnfold(version, i, j);
          IsCornerIs(version, i, j);
          if !((i == 0 && j == 0) || (i == 0 && j == numAlign - 1) || (i == numAlign - 1 && j == 0)) {
            PositionRange(version, i);
            PositionRange(version, j);
            ghost var ps := Alignments(version, i) + AlignmentsIn(version, i, j);
            ghost var p := Alignment(alignPatPos[i], alignPatPos[j]);
            PaintedAllSnoc(g, ps, p, false);
            PaintedAllSnoc(f, ps, p, true);
            assert ps + [p] == Alignments(version, i) + AlignmentsIn(version, i, j + 1);
            DrawAlignmentPattern(alignPatPos[i], alignPatPos[j]);
          }
        }
      }
    }

    /** Draws both copies of the version information, from version 7 on. */
    method DrawVersion()
      requires Valid()
      modifies modules, isFunction
      ensures Modules() == Painted(old(Modules()), VersionInfo(version), false)
      ensures Functions() == Painted(old(Functions()), VersionInfo(version), true)
    {
      hide *;
      SizeOk();
      ghost var g, f := Modules(), Functions();
      if version < 7 {
        NoVersionInfo(g, version, false);
        NoVersionInfo(f, version, true);
        return;
      }
      var bits := ComputeVersionWord(version);
      ghost var p := VersionInfo(version);
      ShownStart(g, p, false);
      ShownStart(f, p, true);
      VersionCellsStart(size);
      for i: nat := 0 to 18
        invariant Shown(Modules(), g, p, false, VersionCells(size, i))
          && Shown(Functions(), f, p, true, VersionCells(size, i))
      {
        VersionCellsStep(size, i);
        VersionDark(version, size, i);
        var bit := GetBit(bits, i);
        var a, b := size - 11 + i % 3, i / 3;
        DrawPatternModule(p, a, b, bit, g, f, VersionCells(size, i));
        DrawPatternModule(p, b, a, bit, g, f, VersionCells(size, i) + iset{Cell(a, b)});
      }
      VersionCellsAll(version, size);
      ShownEnd(Modules(), g, p, false, VersionCells(size, 18));
      ShownEnd(Functions(), f, p, true, VersionCells(size, 18));
    }

    /** Draws all function patterns of a symbol with only light modules; the format bits are those of mask 0. */
    method DrawFunctionPatterns()
      requires Valid() && Modules() == Blank(size) && Functions() == Blank(size)
      modifies modules, isFunction
      ensures Modules() == PatternGrid(version, ecl) && Functions() == FunctionMarks(version)
    {
      hide *;
      SizeOk();
      ghost var g := Modules();
      DrawTiming();
      DrawFinderPattern(3, 3);
      DrawFinderPattern(size - 4, 3);
      DrawFinderPattern(3, size - 4);
      DrawAlignmentPatterns();
      FirstPatternsDrawn(version, g, false);
      FirstPatternsDrawn(version, g, true);
      DrawFormatBits(0);
      DrawVersion();
      PatternGridIs(version, ecl);
    }

    // ---------- Codewords ----------

    /** The modules after drawing the first codeword bits on the free ones among the cells `done`. */
    ghost predicate Drawn(start: Grid, done: seq<Cell>, data: seq<bv8>, i: nat)
      requires Valid()
      reads modules, isFunction
    {
      Progress(start, Functions(), done, CodewordBits(data), i, Modules())
    }

    lemma DrawnStart(data: seq<bv8>)
      requires Valid()
      ensures Drawn(Modules(), ScanPairs(size, 0), data, 0)
    {}

    lemma DrawnEnd(start: Grid, data: seq<bv8>, i: nat)
      requires Valid() && Drawn(start, ScanPairs(size, size / 2), data, i)
      ensures Modules() == PutBits(start, FreeScan(Functions()), CodewordBits(data))
    {}

    /** Writes the next codeword bit to a module, unless it is a function module or no bits are left. */
    method DrawBit(x: nat, y: nat, i: nat, data: seq<bv8>, ghost start: Grid, ghost done: seq<Cell>) returns (i': nat)
      requires Valid() && x < size && y < size
      requires Drawn(start, done, data, i)
      modifies modules
      ensures Drawn(start, done + [Cell(x, y)], data, i')
    {
      hide Progress, CodewordBits, Square, Bit;
      ghost var c, bits, before := Cell(x, y), CodewordBits(data), Modules();
      ProgressStep(start, Functions(), done, c, bits, i, before);
      i' := i;
      if !isFunction[y, x] && i < |data| * 8 {
        BitOfCodewords(data, i);
        modules[y, x] := Bit(data[i / 8], 7 - i % 8);
        SetExact(before, c, bits[i]);
        GridsEqual(Modules(), Set(before, c, bits[i]));
        i' := i + 1;
      }
    }

    /** Draws one row of a column pair, right module first. */
    method DrawRow(right: nat, vert: nat, i0: nat, data: seq<bv8>, ghost start: Grid,
            ghost done: seq<Cell>) returns (i: nat)
      requires Valid() && 1 <= right < size && vert < size
      requires Drawn(start, done, data, i0)
      modifies modules
      ensures Drawn(start, done + [PairCell(size, right, vert, 0), PairCell(size, right, vert, 1)], data, i)
    {
      hide Drawn;
      i := i0;
      ghost var drawn := done;
      for j: nat := 0 to 2
        invariant drawn == done + [PairCell(size, right, vert, 0), PairCell(size, right, vert, 1)][..j]
        invariant Drawn(start, drawn, data, i)
      {
        var x := right - j;
        var upward := (right + 1) / 2 % 2 == 0;
        var y := if upward then size - 1 - vert else vert;
        i := DrawBit(x, y, i, data, start, drawn);
        drawn := drawn + [Cell(x, y)];
      }
      assert drawn == done + [PairCell(size, right, vert, 0), PairCell(size, right, vert, 1)];
    }

    /** Draws one column pair. */
    method DrawPair(right: nat, i0: nat, data: seq<bv8>, ghost start: Grid, ghost done: seq<Cell>) returns (i: nat)
      requires Valid() && 1 <= right < size
      requires Drawn(start, done, data, i0)
      modifies modules
      ensures Drawn(start, done + PairCells(size, right, size), data, i)
    {
      hide *;
      i := i0;
      PairCellsUnfold(size, right, 0);
      assert done + [] == done;
      for vert: nat := 0 to size
        invariant Drawn(start, done + PairCells(size, right, vert), data, i)
      {
        i := DrawRow(right, vert, i, data, start, done + PairCells(size, right, vert));
        PairCellsUnfold(size, right, vert);
        assert done + PairCells(size, right, vert + 1)
            == done + PairCells(size, right, vert) + [PairCell(size, right, vert, 0), PairCell(size, right, vert, 1)];
      }
    }

    lemma SizeOk()
      requires Valid()
      ensures IsSize(size) && 21 <= size <= 177 && size % 2 == 1 && modules != isFunction
      ensures IsVersion(version) && 1 <= version <= 40 && size == SizeOf(version)
      ensures version >= 7 ==> size >= 45
    {}

    /** Lays the bits of the codewords out in zigzag order on the modules that are not function modules; refuses any
        other number of codewords than that of the version. */
    method DrawCodewords(data: seq<bv8>) returns (ok: bool)
      requires Valid()
      modifies modules
      ensures IsVersion(version) && (ok <==> |data| == RawCodewords(version))
      ensures Modules() ==
        if ok then PutBits(old(Modules()), FreeScan(Functions()), CodewordBits(data)) else old(Modules())
    {
      hide *;
      SizeOk();
      ok := |data| == RawCodewords(version);
      if !ok {
        return;
      }
      ghost var start := Modules();
      var i := 0;
      ghost var p: nat := 0;
      DrawnStart(data);
      LoopColumnStep(size, 0);
      var right: int := size - 1;
      while right >= 1
        invariant p <= size / 2 && right == LoopColumn(size, p)
        invariant Drawn(start, ScanPairs(size, p), data, i)
        decreases right
      {
        LoopColumnStep(size, p);
        if right == 6 {
          right := 5;
        }
        i := DrawPair(right, i, data, start, ScanPairs(size, p));
        ScanPairsUnfold(size, p);
        right := right - 2;
        p := p + 1;
      }
      LoopColumnStep(size, p);
      DrawnEnd(start, data, i);
    }

    /** Inverts the modules selected by the mask, function modules excepted. */
    method ApplyMask(msk: nat)
      requires Valid() && msk < 8
      modifies modules
      ensures Modules() == Masked(old(Modules()), Functions(), msk)
    {
      hide Inverts, Masked;
      ghost var before := Modules();
      for y := 0 to size
        invariant forall b, a :: 0 <= b < size && 0 <= a < size ==>
          modules[b, a] == (before[b][a] != (b < y && Inverts(msk, a, b) && !isFunction[b, a]))
      {
        for x := 0 to size
          invariant forall b, a :: 0 <= b < size && 0 <= a < size ==>
            modules[b, a] == (before[b][a] != ((b < y || (b == y && a < x)) && Inverts(msk, a, b) && !isFunction[b, a]))
        {
          var invert := Inverts(msk, x, y);
          modules[y, x] := modules[y, x] != (invert && !isFunction[y, x]);
        }
      }
      MaskedAt(before, Functions(), msk);
      GridsEqual(Modules(), Masked(before, Functions(), msk));
    }

    /** Draws one module of the format bits, which advances one of the two copies. */
    method DrawFormatModule(c: Cell, bits: seq<bool>, k: nat, ghost m: nat, ghost n: nat, ghost m': nat, ghost n': nat,
                            ghost g: Grid, ghost f: Grid)
      requires Valid() && |bits| == 16 && k < 16 && Square(g) && Square(f) && |g| == |f| == size
      requires InGrid(g, c) && Set(PartFormat(g, bits, m, n), c, bits[k]) == PartFormat(g, bits, m', n')
      requires Set(PartFormat(f, AllDark(), m, n), c, true) == PartFormat(f, AllDark(), m', n')
      requires Modules() == PartFormat(g, bits, m, n) && Functions() == PartFormat(f, AllDark(), m, n)
      modifies modules, isFunction
      ensures Modules() == PartFormat(g, bits, m', n') && Functions() == PartFormat(f, AllDark(), m', n')
    {
      hide PartFormat, Set, FormatModule;
      SetFunctionModule(c.x, c.y, bits[k]);
    }

    /** Draws the first copy of the format bits. */
    method DrawFirstCopy(bits: seq<bool>)
      requires Valid() && |bits| == 16
      modifies modules, isFunction
      ensures Modules() == PartFormat(old(Modules()), bits, 15, 0)
        && Functions() == PartFormat(old(Functions()), AllDark(), 15, 0)
    {
      hide *;
      SizeOk();
      ghost var g, f := Modules(), Functions();
      FormatStart(g, bits);
      FormatStart(f, AllDark());
      for i: nat := 0 to 15
        invariant Modules() == PartFormat(g, bits, i, 0) && Functions() == PartFormat(f, AllDark(), i, 0)
      {
        FormatStep(g, bits, i, 0);
        FormatStep(f, AllDark(), i, 0);
        DrawFormatModule(FirstCell(i), bits, i, i, 0, i + 1, 0, g, f);
      }
    }

    /** Draws the second copy of the format bits, and the module that is always dark. */
    method DrawSecondCopy(bits: seq<bool>, ghost g: Grid, ghost f: Grid)
      requires Valid() && |bits| == 16 && Square(g) && Square(f) && |g| == |f| == size
      requires Modules() == PartFormat(g, bits, 15, 0) && Functions() == PartFormat(f, AllDark(), 15, 0)
      modifies modules, isFunction
      ensures Modules() == WithFormat(g, bits) && Functions() == WithFormat(f, AllDark())
    {
      hide *;
      SizeOk();
      for i: nat := 0 to 16
        invariant Modules() == PartFormat(g, bits, 15, i) && Functions() == PartFormat(f, AllDark(), 15, i)
      {
        FormatStep(g, bits, 15, i);
        FormatStep(f, AllDark(), 15, i);
        DrawFormatModule(SecondCell(size, i), bits, i, 15, i, 15, i + 1, g, f);
      }
      WithFormatIs(g, bits);
      WithFormatIs(f, AllDark());
    }

    /** Draws both copies of the format word. */
    method DrawFormatBits(msk: nat)
      requires Valid() && msk < 8
      modifies modules, isFunction
      ensures Modules() == WithFormat(old(Modules()), FormatBits(FormatWord(ecl, msk)))
      ensures Functions() == WithFormat(old(Functions()), AllDark())
    {
      hide *;
      ghost var g, f := Modules(), Functions();
      var bits := ComputeFormatWord(ecl, msk);
      DrawFirstCopy(FormatBits(bits));
      DrawSecondCopy(FormatBits(bits), g, f);
    }

    /** Applies a mask, draws its format bits, scores the symbol and takes the mask off again. */
    method TryMask(i: nat, ghost unmasked: Grid) returns (penalty: int)
      requires Valid() && i < 8 && Square(unmasked) && |unmasked| == size && FormatReserved(Functions())
      requires Modules() == BeforeTrial(unmasked, ecl, i)
      modifies modules, isFunction
      ensures Functions() == old(Functions())
      ensures penalty == GridPenalty(Trial(unmasked, Functions(), ecl, i))
      ensures Modules() == BeforeTrial(unmasked, ecl, i + 1)
    {
      hide *;
      SizeOk();
      ghost var functions := Functions();
      ReservedMarks(functions);
      TrialIs(unmasked, functions, ecl, i, i);
      ApplyMask(i);
      DrawFormatBits(i);
      penalty := GetPenaltyScore(Modules());
      ApplyMask(i);
      TrialUndone(unmasked, functions, ecl, i);
      BeforeTrialIs(unmasked, ecl, i);
    }

    /** Tries all masks and chooses the one of least penalty. */
    method ChooseMask() returns (msk: int)
      requires Valid() && FormatReserved(Functions())
      modifies modules, isFunction
      ensures Functions() == old(Functions())
      ensures IsBest(old(Modules()), Functions(), ecl, 8, msk)
      ensures Modules() == BeforeTrial(old(Modules()), ecl, 8)
    {
      hide *;
      SizeOk();
      ghost var unmasked, functions := Modules(), Functions();
      BeforeTrialIs(unmasked, ecl, 0);
      BestStart(unmasked, functions, ecl);
      msk := -1;
      var minPenalty := LONG_MAX;
      for i: nat := 0 to 8
        invariant Functions() == functions && Modules() == BeforeTrial(unmasked, ecl, i)
        invariant BestOfFirst(unmasked, functions, ecl, i, msk, minPenalty)
      {
        BestStep(unmasked, functions, ecl, i, msk, minPenalty);
        var penalty := TryMask(i, unmasked);
        if penalty < minPenalty {
          msk := i;
          minPenalty := penalty;
        }
      }
      BestEnd(unmasked, functions, ecl, msk, minPenalty);
    }

    /** Chooses a mask if none is asked for, and applies it. */
    method FinishWithMask(asked: int)
      requires Valid() && -1 <= asked <= 7 && FormatReserved(Functions())
      modifies this`mask, modules, isFunction
      ensures Functions() == old(Functions())
      ensures Masking(old(Modules()), Functions(), ecl, asked, mask, Modules())
    {
      hide *;
      SizeOk();
      ghost var unmasked, functions := Modules(), Functions();
      BeforeTrialIs(unmasked, ecl, 0);
      ReservedMarks(functions);
      var msk := asked;
      ghost var tried: nat := 0;
      if msk == -1 {
        msk := ChooseMask();
        tried := 8;
        BestInRange(unmasked, functions, ecl, msk);
      }
      mask := msk;
      TrialIs(unmasked, functions, ecl, tried, msk);
      ApplyMask(msk);
      DrawFormatBits(msk);
      MaskingIntro(unmasked, functions, ecl, asked, msk);
    }

    /** Draws the protected data on the modules and finishes the symbol with the mask asked for, or with the best
        one. */
    method Build(data: seq<bv8>, asked: int) returns (r: Result<seq<bv8>, BuildError>)
      requires Valid() && FormatReserved(Functions())
      modifies this`mask, modules, isFunction
      ensures Functions() == old(Functions())
      ensures r == Err(DomainError) <==> !(-1 <= asked <= 7)
      ensures r == Err(InvalidArgument) <==> -1 <= asked <= 7 && |data| != NumDataCodewords(version, ecl)
      ensures r.Err? ==> Modules() == old(Modules()) && mask == old(mask)
      ensures r.Ok? ==> IsSymbolOf(old(Modules()), Functions(), version, ecl, data, asked, r.value, mask, Modules())
    {
      if !(-1 <= asked <= 7) {
        return Err(DomainError);
      }
      hide *;
      SizeOk();
      var allCodewords := AddEccAndInterleave(version, ecl, data);
      if allCodewords == None {
        return Err(InvalidArgument);
      }
      ghost var start, functions := Modules(), Functions();
      ProtectedLength(version, ecl, data, allCodewords.value);
      var drawn := DrawCodewords(allCodewords.value);
      ghost var unmasked := Modules();
      FinishWithMask(asked);
      r := Ok(allCodewords.value);
      SymbolIntro(start, functions, version, ecl, data, asked, allCodewords.value, mask, unmasked, Modules());
    }

    /** Makes a symbol of data codewords: draws the function patterns, then builds the rest. */
    static method Create(ver: int, level: Ecc, data: seq<bv8>, asked: int) returns (r: Result<QrCode, BuildError>)
      ensures r.Err? && r.error == DomainError <==> !IsVersion(ver) || !(-1 <= asked <= 7)
      ensures r.Err? && r.error == InvalidArgument <==>
        IsVersion(ver) && -1 <= asked <= 7 && |data| != NumDataCodewords(ver, level)
      ensures r.Ok? ==> IsVersion(ver) && r.value.Valid() && r.value.version == ver && r.value.ecl == level
      ensures r.Ok? ==> IsSymbol(ver, level, data, asked, r.value.mask, r.value.Modules())
    {
      if !IsVersion(ver) || !(-1 <= asked <= 7) {
        return Err(DomainError);
      }
      hide *;
      var code := new QrCode(ver, level);
      code.SizeOk();
      code.DrawFunctionPatterns();
      DrawnMarks(ver);
      var built := code.Build(data, asked);
      if built.Err? {
        return Err(built.error);
      }
      IsSymbolIntro(ver, level, data, asked, built.value, code.mask, code.Modules());
      r := Ok(code);
    }
  }

  predicate Inside(size: int, c: Cell) {
    0 <= c.x < size && 0 <= c.y < size
  }

  lemma RingsNear(px: int, py: int)
    ensures forall c: Cell :: Ring(px, py, c) <= 2 <==> -2 <= c.x - px <= 2 && -2 <= c.y - py <= 2
    ensures forall c: Cell :: Ring(px, py, c) <= 4 <==> -4 <= c.x - px <= 4 && -4 <= c.y - py <= 4
  {}

  lemma StepIs(ver: int, size: nat, numAlign: nat, step: nat)
    requires IsVersion(ver) && ver >= 2 && size == ver * 4 + 17 && numAlign == ver / 7 + 2
    requires step == if ver == 32 then 26 else (ver * 4 + numAlign * 2 + 1) / (numAlign * 2 - 2) * 2
    ensures numAlign == NumAlign(ver) && step == AlignStep(ver) && size == SizeOf(ver)
  {}

  /** The loop of the source that puts the positions together. */
  method PositionsFromEnd(ver: int, size: nat, numAlign: nat, step: nat) returns (result: seq<int>)
    requires IsVersion(ver) && ver >= 2 && numAlign == NumAlign(ver) && step == AlignStep(ver) && size == SizeOf(ver)
    ensures |result| == numAlign && forall i :: 0 <= i < |result| ==> result[i] == AlignPosition(ver, i)
  {
    hide *;
    NumAlignIs(ver);
    result := [];
    var pos: int := size - 7;
    PositionBack(ver, 0);
    for i: nat := 0 to numAlign - 1
      invariant |result| == i
      invariant i < numAlign - 1 ==> pos == AlignPosition(ver, numAlign - 1 - i)
      invariant forall m :: 0 <= m < i ==> result[m] == AlignPosition(ver, numAlign - i + m)
    {
      PositionBack(ver, i);
      result := [pos] + result;
      pos := pos - step;
    }
    result := [6] + result;
  }

  lemma PositionBack(ver: int, i: nat)
    requires IsVersion(ver) && ver >= 2
    ensures AlignPosition(ver, 0) == 6
    ensures i == 0 ==> AlignPosition(ver, NumAlign(ver) - 1) == SizeOf(ver) - 7
    ensures i + 2 < NumAlign(ver) ==>
      AlignPosition(ver, NumAlign(ver) - 2 - i) == AlignPosition(ver, NumAlign(ver) - 1 - i) - AlignStep(ver)
  {
    PositionStep(ver, if i + 2 < NumAlign(ver) then NumAlign(ver) - 2 - i else 1);
    hide AlignStep;
  }

  lemma NumAlignIs(ver: int)
    requires IsVersion(ver)
    ensures NumAlign(ver) == 0 <==> ver < 2
    ensures ver >= 2 ==> NumAlign(ver) >= 2
  {}

  lemma IsCornerIs(ver: int, i: nat, j: nat)
    requires IsVersion(ver)
    ensures IsCorner(ver, i, j)
      == ((i == 0 && j == 0) || (i == 0 && j == NumAlign(ver) - 1) || (i == NumAlign(ver) - 1 && j == 0))
  {}

  /** Computes the version with its error correction bits. */
  method ComputeVersionWord(ver: int) returns (bits: bv32)
    requires 0 <= ver < 64
    ensures bits == VersionWord(ver)
  {
    hide GolayRemainder, VersionData, WithRemainder;
    var data := VersionData(ver);
    var rem := DivideVersion(data);
    bits := WithRemainder(data, rem);
  }

  method DivideVersion(data: bv32) returns (rem: bv32)
    ensures rem == GolayRemainder(data, 12)
  {
    hide *;
    rem := data;
    GolayUnfold(data, 0);
    for i := 0 to 12
      invariant rem == GolayRemainder(data, i)
    {
      GolayUnfold(data, i);
      rem := GolayStep(rem);
    }
  }

  lemma GolayUnfold(data: bv32, i: nat)
    ensures GolayRemainder(data, 0) == data
    ensures GolayRemainder(data, i + 1) == GolayStep(GolayRemainder(data, i))
  {
    hide GolayStep;
  }

  /** The modules that show the first `m` bits of the version information. */
  ghost function VersionCells(size: nat, m: nat): iset<Cell> {
    iset c: Cell |
      || (size - 11 <= c.x <= size - 9 && 0 <= c.y <= 5 && 3 * c.y + c.x - (size - 11) < m)
      || (size - 11 <= c.y <= size - 9 && 0 <= c.x <= 5 && 3 * c.x + c.y - (size - 11) < m)
  }

  lemma VersionCellsStart(size: nat)
    ensures VersionCells(size, 0) == iset{}
  {}

  lemma VersionCellsStep(size: nat, i: nat)
    requires i < 18 && size >= 45
    ensures var a, b := size - 11 + i % 3, i / 3;
      VersionCells(size, i) + iset{Cell(a, b)} + iset{Cell(b, a)} == VersionCells(size, i + 1)
  {
    var a, b := size - 11 + i % 3, i / 3;
    assert i == 3 * b + a - (size - 11);
  }

  lemma VersionCellsAll(ver: int, size: nat)
    requires ver >= 7
    ensures forall c: Cell :: c in VersionCells(size, 18) <==> Covers(VersionInfo(ver), size, c)
  {}

  lemma VersionDark(ver: int, size: nat, i: nat)
    requires IsVersion(ver) && i < 18 && size >= 45
    ensures var a, b := size - 11 + i % 3, i / 3;
      ShowsDark(VersionInfo(ver), size, Cell(a, b)) == ShowsDark(VersionInfo(ver), size, Cell(b, a))
        == GetBit(VersionWord(ver), i)
  {
    hide GetBit, VersionWord;
    assert 3 * (i / 3) + i % 3 == i;
  }

  lemma FirstPatternsDrawn(ver: int, g: Grid, marks: bool)
    requires IsVersion(ver) && Square(g)
    ensures var n := SizeOf(ver);
      var four := Painted(Painted(Painted(Painted(g, Timing, marks), Finder(3, 3), marks), Finder(n - 4, 3), marks),
          Finder(3, n - 4), marks);
      PaintedAll(g, FirstPatterns(ver), marks)
        == if ver >= 2 then PaintedAll(four, Alignments(ver, NumAlign(ver)), marks) else four
  {
    hide *;
    var n := SizeOf(ver);
    var ps := [Timing, Finder(3, 3), Finder(n - 4, 3), Finder(3, n - 4)];
    PaintedAllSnoc(g, [], Timing, marks);
    PaintedAllSnoc(g, [Timing], Finder(3, 3), marks);
    PaintedAllSnoc(g, [Timing, Finder(3, 3)], Finder(n - 4, 3), marks);
    PaintedAllSnoc(g, [Timing, Finder(3, 3), Finder(n - 4, 3)], Finder(3, n - 4), marks);
    assert [] + [Timing] == [Timing];
    assert [Timing] + [Finder(3, 3)] == [Timing, Finder(3, 3)];
    assert [Timing, Finder(3, 3)] + [Finder(n - 4, 3)] == [Timing, Finder(3, 3), Finder(n - 4, 3)];
    assert [Timing, Finder(3, 3), Finder(n - 4, 3)] + [Finder(3, n - 4)] == ps;
    FirstPatternsAre(ver);
    if ver >= 2 {
      PaintedAllConcat(g, ps, Alignments(ver, NumAlign(ver)), marks);
    }
  }

  lemma FirstPatternsAre(ver: int)
    requires IsVersion(ver)
    ensures var n := SizeOf(ver); var ps := [Timing, Finder(3, 3), Finder(n - 4, 3), Finder(3, n - 4)];
      FirstPatterns(ver) == if ver >= 2 then ps + Alignments(ver, NumAlign(ver)) else ps
  {
    hide Alignments, NumAlign, SizeOf;
  }

  lemma PatternGridIs(ver: int, ecl: Ecc)
    requires IsVersion(ver)
    ensures var first := PaintedAll(Blank(SizeOf(ver)), FirstPatterns(ver), false);
      PatternGrid(ver, ecl) == Painted(WithFormat(first, FormatBits(FormatWord(ecl, 0))), VersionInfo(ver), false)
    ensures var first := PaintedAll(Blank(SizeOf(ver)), FirstPatterns(ver), true);
      FunctionMarks(ver) == Painted(WithFormat(first, AllDark()), VersionInfo(ver), true)
  {
    hide Painted, PaintedAll, WithFormat, Blank, FirstPatterns, FormatBits, FormatWord, SizeOf;
  }

  /** The modules of an alignment pattern before the one at `dx`, `dy`. */
  ghost function Scanned(px: int, py: int, dy: int, dx: int): iset<Cell> {
    iset c: Cell | -2 <= c.x - px <= 2 && ((-2 <= c.y - py < dy) || (c.y - py == dy && c.x - px < dx))
  }

  lemma ScannedStart(px: int, py: int)
    ensures Scanned(px, py, -2, -2) == iset{}
  {}

  lemma ScannedStep(px: int, py: int, dy: int, dx: int)
    requires -2 <= dx <= 2 && -2 <= dy <= 2
    ensures Scanned(px, py, dy, dx) + iset{Cell(px + dx, py + dy)} == Scanned(px, py, dy, dx + 1)
  {}

  lemma ScannedRow(px: int, py: int, dy: int)
    requires -2 <= dy
    ensures Scanned(px, py, dy, 3) == Scanned(px, py, dy + 1, -2)
  {}

  lemma ScannedAll(px: int, py: int, size: int)
    ensures forall c: Cell :: c in Scanned(px, py, 3, -2) <==> Covers(Alignment(px, py), size, c)
  {
    RingsNear(px, py);
    hide Ring;
  }

  lemma RingAt(px: int, py: int, dx: int, dy: int, size: int)
    ensures ShowsDark(Alignment(px, py), size, Cell(px + dx, py + dy))
      == ((if Abs(dx) > Abs(dy) then Abs(dx) else Abs(dy)) != 1)
  {}

  /** Computes a format word with its error correction bits. */
  method ComputeFormatWord(ecl: Ecc, msk: nat) returns (bits: bv32)
    requires msk < 8
    ensures bits == FormatWord(ecl, msk)
  {
    var data: bv32 := (FormatCode(ecl) << 3) | (msk as bv32);
    hide *;
    var rem := data;
    BchUnfold(data, 0);
    for i := 0 to 10
      invariant rem == BchRemainder(data, i)
    {
      BchUnfold(data, i);
      rem := BchStep(rem);
    }
    bits := ((data << 10) | rem) ^ 0x5412;
    FormatWordIs(ecl, msk, data);
  }

  lemma WithFormatIs(g: Grid, bits: seq<bool>)
    requires Square(g) && |bits| == 16
    ensures WithFormat(g, bits) == PartFormat(g, bits, 15, 16)
  {}

  lemma BchUnfold(data: bv32, i: nat)
    ensures BchRemainder(data, 0) == data
    ensures BchRemainder(data, i + 1) == BchStep(BchRemainder(data, i))
  {
    hide BchStep;
  }

  lemma FormatWordIs(ecl: Ecc, msk: nat, data: bv32)
    requires msk < 8 && data == (FormatCode(ecl) << 3) | (msk as bv32)
    ensures FormatWord(ecl, msk) == ((data << 10) | BchRemainder(data, 10)) ^ 0x5412
  {
    hide BchRemainder, FormatCode;
  }

  // ---------- Drawing codeword bits ----------

  lemma BitOfCodewords(data: seq<bv8>, i: nat)
    requires i < 8 * |data|
    ensures CodewordBits(data)[i] == Bit(data[i / 8], 7 - i % 8)
  {}

  /** The state of drawing after the cells `done`: the first bits are on the free ones among them, and `i` is the next
      bit. */
  ghost predicate Progress(start: Grid, functions: Grid, done: seq<Cell>, bits: seq<bool>, i: nat, now: Grid) {
    var free := FreeCells(done, functions);
    now == PutBits(start, free, bits) && i == if |bits| < |free| then |bits| else |free|
  }

  /** What drawing does at one more cell. */
  lemma ProgressStep(start: Grid, functions: Grid, done: seq<Cell>, c: Cell, bits: seq<bool>, i: nat, now: Grid)
    requires Progress(start, functions, done, bits, i, now)
    ensures if !At(functions, c) && i < |bits|
      then Progress(start, functions, done + [c], bits, i + 1, Set(now, c, bits[i]))
      else Progress(start, functions, done + [c], bits, i, now)
  {
    hide FreeCells, PutBits, Set, At;
    FreeCellsUnfold(done, c, functions);
    PutBitsUnfold(start, FreeCells(done, functions), c, bits);
  }

  // ---------- Masking ----------

  /** The modules when mask `i` is about to be tried: the format bits of the mask before it are still there. */
  function BeforeTrial(unmasked: Grid, ecl: Ecc, i: nat): (g: Grid)
    requires Square(unmasked) && i <= 8
    ensures Square(g) && |g| == |unmasked|
  {
    if i == 0 then unmasked else WithFormat(unmasked, FormatBits(FormatWord(ecl, i - 1)))
  }

  lemma BeforeTrialIs(unmasked: Grid, ecl: Ecc, i: nat)
    requires Square(unmasked) && i < 8
    ensures BeforeTrial(unmasked, ecl, 0) == unmasked
    ensures BeforeTrial(unmasked, ecl, i + 1) == WithFormat(unmasked, FormatBits(FormatWord(ecl, i)))
  {
    hide WithFormat, FormatBits, FormatWord;
  }

  /** What masking makes of the modules depends on the unmasked grid alone. */
  lemma TrialIs(unmasked: Grid, functions: Grid, ecl: Ecc, i: nat, msk: nat)
    requires Square(unmasked) && Square(functions) && |unmasked| == |functions| && i <= 8 && msk < 8
    ensures WithFormat(Masked(BeforeTrial(unmasked, ecl, i), functions, msk), FormatBits(FormatWord(ecl, msk)))
         == Trial(unmasked, functions, ecl, msk)
  {
    hide WithFormat, FormatBits, FormatWord, Masked;
    if i > 0 {
      TrialForgetsFormat(unmasked, functions, ecl, FormatBits(FormatWord(ecl, i - 1)), msk);
    }
  }

  /** The penalty of the symbol that a mask makes. */
  function TrialPenalty(unmasked: Grid, functions: Grid, ecl: Ecc, msk: nat): int
    requires Square(unmasked) && Square(functions) && |unmasked| == |functions| && msk < 8
  {
    GridPenalty(Trial(unmasked, functions, ecl, msk))
  }

  /** `best` is the lowest-numbered mask of least penalty among the first `n`. */
  ghost predicate IsBest(unmasked: Grid, functions: Grid, ecl: Ecc, n: nat, best: int)
    requires Square(unmasked) && Square(functions) && |unmasked| == |functions| && n <= 8
  {
    && 0 <= best < n
    && (forall m: nat :: m < n ==>
      TrialPenalty(unmasked, functions, ecl, best) <= TrialPenalty(unmasked, functions, ecl, m))
    && (forall m: nat :: m < best ==>
      TrialPenalty(unmasked, functions, ecl, best) < TrialPenalty(unmasked, functions, ecl, m))
  }

  /** The state of the search after the first `n` masks. */
  ghost predicate BestOfFirst(unmasked: Grid, functions: Grid, ecl: Ecc, n: nat, best: int, minPenalty: int)
    requires Square(unmasked) && Square(functions) && |unmasked| == |functions| && n <= 8
  {
    if n == 0 then best == -1 && minPenalty == LONG_MAX
    else IsBest(unmasked, functions, ecl, n, best) && minPenalty == TrialPenalty(unmasked, functions, ecl, best)
  }

  lemma BestStep(unmasked: Grid, functions: Grid, ecl: Ecc, i: nat, best: int, minPenalty: int)
    requires Square(unmasked) && Square(functions) && |unmasked| == |functions| && i < 8
    requires |unmasked| % 2 == 1 && |unmasked| <= 177
    requires BestOfFirst(unmasked, functions, ecl, i, best, minPenalty)
    ensures var penalty := GridPenalty(Trial(unmasked, functions, ecl, i));
      if penalty < minPenalty then BestOfFirst(unmasked, functions, ecl, i + 1, i, penalty)
      else BestOfFirst(unmasked, functions, ecl, i + 1, best, minPenalty)
  {
    hide Trial, GridPenalty;
    PenaltyInRange(Trial(unmasked, functions, ecl, i));
  }

  lemma BestStart(unmasked: Grid, functions: Grid, ecl: Ecc)
    requires Square(unmasked) && Square(functions) && |unmasked| == |functions|
    ensures BestOfFirst(unmasked, functions, ecl, 0, -1, LONG_MAX)
  {}

  lemma BestEnd(unmasked: Grid, functions: Grid, ecl: Ecc, best: int, minPenalty: int)
    requires Square(unmasked) && Square(functions) && |unmasked| == |functions|
    requires BestOfFirst(unmasked, functions, ecl, 8, best, minPenalty)
    ensures IsBest(unmasked, functions, ecl, 8, best)
  {}

  lemma BestInRange(unmasked: Grid, functions: Grid, ecl: Ecc, best: int)
    requires Square(unmasked) && Square(functions) && |unmasked| == |functions|
    requires IsBest(unmasked, functions, ecl, 8, best)
    ensures 0 <= best < 8
  {}

  /** The final modules are the trial symbol of the mask asked for, or of the best mask if none was asked for. */
  ghost predicate Masking(unmasked: Grid, functions: Grid, ecl: Ecc, asked: int, msk: int, final: Grid)
    requires Square(unmasked) && Square(functions) && |unmasked| == |functions|
  {
    && 0 <= msk < 8
    && (if asked == -1 then IsBest(unmasked, functions, ecl, 8, msk) else msk == asked)
    && final == Trial(unmasked, functions, ecl, msk)
  }

  lemma MaskingIntro(unmasked: Grid, functions: Grid, ecl: Ecc, asked: int, msk: int)
    requires Square(unmasked) && Square(functions) && |unmasked| == |functions| && 0 <= msk < 8
    requires if asked == -1 then IsBest(unmasked, functions, ecl, 8, msk) else msk == asked
    ensures Masking(unmasked, functions, ecl, asked, msk, Trial(unmasked, functions, ecl, msk))
  {
    hide Trial, IsBest;
  }

  /** The final modules come from drawing codewords that protect the data, and masking. */
  ghost predicate IsSymbolOf(start: Grid, functions: Grid, ver: int, ecl: Ecc, data: seq<bv8>, asked: int,
                             codewords: seq<bv8>, msk: int, final: Grid)
    requires Square(functions)
  {
    var unmasked := PutBits(start, FreeScan(functions), CodewordBits(codewords));
    && IsVersion(ver) && |data| == NumDataCodewords(ver, ecl) && Protects(ver, ecl, data, codewords)
    && Square(unmasked) && |unmasked| == |functions| && Masking(unmasked, functions, ecl, asked, msk, final)
  }

  lemma SymbolIntro(start: Grid, functions: Grid, ver: int, ecl: Ecc, data: seq<bv8>, asked: int,
                    codewords: seq<bv8>, msk: int, unmasked: Grid, final: Grid)
    requires IsVersion(ver) && |data| == NumDataCodewords(ver, ecl) && Protects(ver, ecl, data, codewords)
    requires Square(functions) && Square(unmasked) && |unmasked| == |functions|
    requires unmasked == PutBits(start, FreeScan(functions), CodewordBits(codewords))
    requires Masking(unmasked, functions, ecl, asked, msk, final)
    ensures IsSymbolOf(start, functions, ver, ecl, data, asked, codewords, msk, final)
  {
    hide Protects, NumDataCodewords, Masking, PutBits, FreeScan, CodewordBits;
  }

  /** A finished symbol of the data, whatever codewords protect it. */
  ghost predicate IsSymbol(ver: int, ecl: Ecc, data: seq<bv8>, asked: int, msk: int, final: Grid)
    requires IsVersion(ver)
  {
    exists codewords ::
      IsSymbolOf(PatternGrid(ver, ecl), FunctionMarks(ver), ver, ecl, data, asked, codewords, msk, final)
  }

  lemma IsSymbolIntro(ver: int, ecl: Ecc, data: seq<bv8>, asked: int, codewords: seq<bv8>, msk: int, final: Grid)
    requires IsVersion(ver)
      && IsSymbolOf(PatternGrid(ver, ecl), FunctionMarks(ver), ver, ecl, data, asked, codewords, msk, final)
    ensures IsSymbol(ver, ecl, data, asked, msk, final)
  {
    hide IsSymbolOf, PatternGrid, FunctionMarks;
  }
}
