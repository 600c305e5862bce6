/** Grids of modules as values: drawing codeword bits, masking, format bits. */
module QrGrid {
  import opened Common
  import opened QrTables
  import opened ZigzagScan
  import opened Penalty

  predicate InGrid(g: Grid, c: Cell) {
    Square(g) && 0 <= c.x < |g| && 0 <= c.y < |g|
  }

  /** The module at a cell; light outside the grid. */
  predicate At(g: Grid, c: Cell) {
    InGrid(g, c) && g[c.y][c.x]
  }

  /** The grid with one module changed. */
  function Set(g: Grid, c: Cell, v: bool): Grid {
    if InGrid(g, c) then g[c.y := g[c.y][c.x := v]] else g
  }

  lemma SetExact(g: Grid, c: Cell, v: bool)
    requires InGrid(g, c)
    ensures Square(Set(g, c, v)) && |Set(g, c, v)| == |g|
    ensures forall d: Cell :: InGrid(g, d) ==> At(Set(g, c, v), d) == if d == c then v else At(g, d)
  {}

  predicate AllIn(g: Grid, cells: seq<Cell>) {
    Square(g) && forall k :: 0 <= k < |cells| ==> InGrid(g, cells[k])
  }

  /** The cells that are not function modules, in order. */
  function FreeCells(cells: seq<Cell>, functions: Grid): seq<Cell> {
    if cells == [] then []
    else
      var free := FreeCells(cells[..|cells| - 1], functions);
      var c := cells[|cells| - 1];
      if At(functions, c) then free else free + [c]
  }

  /** The grid with bit k written to cell k, as far as there are bits. */
  function PutBits(g: Grid, cells: seq<Cell>, bits: seq<bool>): Grid {
    if cells == [] then g
    else
      var n := |cells| - 1;
      var g' := PutBits(g, cells[..n], bits);
      if n < |bits| then Set(g', cells[n], bits[n]) else g'
  }

  /** The modules at the given cells. */
  function ReadCells(g: Grid, cells: seq<Cell>): (bits: seq<bool>)
    ensures |bits| == |cells|
  {
    seq(|cells|, k requires 0 <= k < |cells| => At(g, cells[k]))
  }

  lemma {:induction false} FreeCellsExact(cells: seq<Cell>, functions: Grid)
    requires Distinct(cells)
    ensures Distinct(FreeCells(cells, functions))
    ensures forall c: Cell :: c in FreeCells(cells, functions) <==> c in cells && !At(functions, c)
  {
    if cells != [] {
      var n := |cells| - 1;
      var init, c := cells[..n], cells[n];
      FreeCellsExact(init, functions);
      hide FreeCells;
      assert c !in init;
      assert forall d :: d in cells <==> d in init || d == c;
      FreeCellsUnfold(init, c, functions);
      assert cells == init + [c];
    }
  }

  lemma FreeCellsUnfold(init: seq<Cell>, c: Cell, functions: Grid)
    ensures FreeCells(init + [c], functions) ==
      if At(functions, c) then FreeCells(init, functions) else FreeCells(init, functions) + [c]
  {
    assert (init + [c])[..|init|] == init;
  }

  /** Bits written to distinct cells are all there afterwards, and nothing else has changed. */
  lemma {:induction false} PutBitsExact(g: Grid, cells: seq<Cell>, bits: seq<bool>)
    requires AllIn(g, cells) && Distinct(cells)
    ensures var g' := PutBits(g, cells, bits);
      && Square(g') && |g'| == |g|
      && (forall k :: 0 <= k < |cells| && k < |bits| ==> At(g', cells[k]) == bits[k])
      && (forall d: Cell :: InGrid(g, d) && d !in cells[..if |bits| < |cells| then |bits| else |cells|] ==>
        At(g', d) == At(g, d))
  {
    hide PutBits, Set, At;
    if cells == [] {
      PutNothing(g, bits);
    } else {
      var n := |cells| - 1;
      var init, c := cells[..n], cells[n];
      PutBitsExact(g, init, bits);
      assert cells == init + [c];
      PutBitsUnfold(g, init, c, bits);
      if n < |bits| {
        SetExact(PutBits(g, init, bits), c, bits[n]);
        assert init[..n] == init && cells[..n + 1] == init + [c];
      } else {
        assert init[..|bits|] == cells[..|bits|];
      }
    }
  }

  lemma PutNothing(g: Grid, bits: seq<bool>)
    ensures PutBits(g, [], bits) == g
  {}

  lemma PutBitsUnfold(g: Grid, init: seq<Cell>, c: Cell, bits: seq<bool>)
    ensures PutBits(g, init + [c], bits)
      == if |init| < |bits| then Set(PutBits(g, init, bits), c, bits[|init|]) else PutBits(g, init, bits)
  {
    assert (init + [c])[..|init|] == init;
  }

  /** The modules available to codeword bits, in scan order. */
  function FreeScan(functions: Grid): seq<Cell> {
    FreeCells(Scan(|functions|), functions)
  }

  lemma FreeScanInGrid(g: Grid, functions: Grid)
    requires Square(g) && |g| == |functions| && IsSize(|g|)
    ensures AllIn(g, FreeScan(functions)) && Distinct(FreeScan(functions))
  {
    ScanExact(|g|);
    FreeCellsExact(Scan(|g|), functions);
    hide Scan;
    forall k | 0 <= k < |FreeScan(functions)|
      ensures InGrid(g, FreeScan(functions)[k])
    {
      assert FreeScan(functions)[k] in FreeScan(functions);
    }
  }

  /** Codeword bits drawn in scan order are all there afterwards if there is room for them, function modules are
      untouched, and so is every module past the last bit. */
  lemma DrawnExactly(g: Grid, functions: Grid, bits: seq<bool>)
    requires Square(g) && Square(functions) && |g| == |functions| && IsSize(|g|) && |bits| <= |FreeScan(functions)|
    ensures var g' := PutBits(g, FreeScan(functions), bits); var free := FreeScan(functions);
      && ReadCells(g', free)[..|bits|] == bits
      && (forall d: Cell :: InGrid(g, d) && (At(functions, d) || d.x == 6 || d in free[|bits|..]) ==>
        At(g', d) == At(g, d))
  {
    var free := FreeScan(functions);
    ScanExact(|g|);
    FreeScanInGrid(g, functions);
    FreeCellsExact(Scan(|g|), functions);
    PutBitsExact(g, free, bits);
    hide FreeScan, PutBits, Scan;
    forall d: Cell | InGrid(g, d) && (At(functions, d) || d.x == 6 || d in free[|bits|..])
      ensures d !in free[..|bits|]
    {
      forall k | 0 <= k < |bits|
        ensures free[k] != d
      {
        assert free[k] in free;
        assert forall j :: |bits| <= j < |free| ==> free[k] != free[j];
      }
    }
  }

  // ---------- Masks ----------

  predicate Inverts(msk: nat, x: nat, y: nat)
    requires msk < 8
  {
    match msk
    case 0 => (x + y) % 2 == 0
    case 1 => y % 2 == 0
    case 2 => x % 3 == 0
    case 3 => (x + y) % 3 == 0
    case 4 => (x / 3 + y / 2) % 2 == 0
    case 5 => x * y % 2 + x * y % 3 == 0
    case 6 => (x * y % 2 + x * y % 3) % 2 == 0
    case 7 => ((x + y) % 2 + x * y % 3) % 2 == 0
  }

  /** The grid with the mask applied to all modules that are not function modules. */
  function Masked(g: Grid, functions: Grid, msk: nat): (g': Grid)
    requires Square(g) && Square(functions) && |g| == |functions| && msk < 8
    ensures Square(g') && |g'| == |g|
  {
    seq(|g|, y requires 0 <= y < |g| =>
      seq(|g|, x requires 0 <= x < |g| => g[y][x] != (Inverts(msk, x, y) && !functions[y][x])))
  }

  lemma MaskedAt(g: Grid, functions: Grid, msk: nat)
    requires Square(g) && Square(functions) && |g| == |functions| && msk < 8
    ensures forall d: Cell :: InGrid(g, d) ==>
      At(Masked(g, functions, msk), d) == (At(g, d) != (Inverts(msk, d.x, d.y) && !At(functions, d)))
  {
    hide Inverts;
  }

  lemma GridsEqual(a: Grid, b: Grid)
    requires Square(a) && Square(b) && |a| == |b|
    requires forall d: Cell :: InGrid(a, d) ==> At(a, d) == At(b, d)
    ensures a == b
  {
    forall y | 0 <= y < |a|
      ensures a[y] == b[y]
    {
      forall x | 0 <= x < |a|
        ensures a[y][x] == b[y][x]
      {
        assert At(a, Cell(x, y)) == At(b, Cell(x, y));
      }
    }
  }

  /** Applying a mask a second time undoes it. */
  lemma MaskInvolution(g: Grid, functions: Grid, msk: nat)
    requires Square(g) && Square(functions) && |g| == |functions| && msk < 8
    ensures Masked(Masked(g, functions, msk), functions, msk) == g
  {
    hide Masked, Inverts;
    MaskedAt(g, functions, msk);
    MaskedAt(Masked(g, functions, msk), functions, msk);
    GridsEqual(Masked(Masked(g, functions, msk), functions, msk), g);
  }

  // ---------- Format bits ----------

  /** The error correction level's two-bit code. */
  function FormatCode(ecl: Ecc): bv32 {
    match ecl
    case LOW => 1
    case MEDIUM => 0
    case QUARTILE => 3
    case HIGH => 2
  }

  /** One step of the division by the generator of the format code. */
  function BchStep(rem: bv32): bv32 {
    (rem << 1) ^ ((rem >> 9) * 0x537)
  }

  function BchRemainder(data: bv32, steps: nat): bv32 {
    if steps == 0 then data else BchStep(BchRemainder(data, steps - 1))
  }

  /** The format word of a level and a mask. */
  function FormatWord(ecl: Ecc, msk: nat): bv32
    requires msk < 8
  {
    var data := (FormatCode(ecl) << 3) | (msk as bv32);
    ((data << 10) | BchRemainder(data, 10)) ^ 0x5412
  }

  predicate GetBit(word: bv32, i: nat)
    requires i < 32
  {
    (word >> i) & 1 != 0
  }

  /** One step of the division by the generator of the version code. */
  function GolayStep(rem: bv32): bv32 {
    (rem << 1) ^ ((rem >> 11) * 0x1F25)
  }

  function GolayRemainder(data: bv32, steps: nat): bv32 {
    if steps == 0 then data else GolayStep(GolayRemainder(data, steps - 1))
  }

  /** The version with its error correction bits. */
  function VersionWord(ver: int): bv32
    requires 0 <= ver < 64
  {
    WithRemainder(VersionData(ver), GolayRemainder(VersionData(ver), 12))
  }

  /** The version in front of its error correction bits. */
  function WithRemainder(data: bv32, rem: bv32): bv32 {
    (data << 12) | rem
  }

  function VersionData(ver: int): bv32
    requires 0 <= ver < 64
  {
    ver as bv32
  }

  predicate VersionBit(ver: int, i: int)
    requires 0 <= ver < 64
  {
    0 <= i < 32 && GetBit(VersionWord(ver), i)
  }

  /** The 15 bits of a format word, and the module that is always dark. */
  function FormatBits(word: bv32): (bits: seq<bool>)
    ensures |bits| == 16
  {
    seq(16, i requires 0 <= i < 16 => i == 15 || GetBit(word, i))
  }

  /** The cell of bit `i` in the first copy of the format word. */
  function FirstCell(i: nat): Cell {
    if i <= 5 then Cell(8, i)
    else if i == 6 then Cell(8, 7)
    else if i == 7 then Cell(8, 8)
    else if i == 8 then Cell(7, 8)
    else Cell(14 - i, 8)
  }

  /** The cell of bit `i` in the second copy; number 15 is the module that is always dark. */
  function SecondCell(size: nat, i: nat): Cell {
    if i < 8 then Cell(size - 1 - i, 8) else if i < 15 then Cell(8, size - 15 + i) else Cell(8, size - 8)
  }

  /** Which bit the first copy has at a cell; -1 if none. */
  function FirstIndex(c: Cell): (i: int)
    ensures -1 <= i < 15
    ensures forall k: nat :: k < 15 ==> (k == i <==> c == FirstCell(k))
  {
    if c.x == 8 && 0 <= c.y <= 5 then c.y
    else if c.x == 8 && c.y == 7 then 6
    else if c.x == 8 && c.y == 8 then 7
    else if c.x == 7 && c.y == 8 then 8
    else if c.y == 8 && 0 <= c.x <= 5 then 14 - c.x
    else -1
  }

  /** Which bit the second copy has at a cell; -1 if none. */
  function SecondIndex(size: nat, c: Cell): (i: int)
    ensures -1 <= i < 16
  {
    if c.y == 8 && size - 8 <= c.x < size then size - 1 - c.x
    else if c.x == 8 && size - 7 <= c.y < size then c.y - size + 15
    else if c.x == 8 && c.y == size - 8 then 15
    else -1
  }

  lemma SecondIndexIs(size: nat)
    requires 21 <= size
    ensures forall c: Cell, k: nat :: k < 16 ==> (k == SecondIndex(size, c) <==> c == SecondCell(size, k))
  {}

  predicate IsFormatCell(size: nat, c: Cell) {
    FirstIndex(c) >= 0 || SecondIndex(size, c) >= 0
  }

  /** The module at a cell once the first `m` bits of the first copy and the first `n` of the second are drawn. */
  function FormatModule(g: Grid, bits: seq<bool>, m: nat, n: nat, c: Cell): bool
    requires |bits| == 16
  {
    if 0 <= SecondIndex(|g|, c) < n then bits[SecondIndex(|g|, c)]
    else if 0 <= FirstIndex(c) < m then bits[FirstIndex(c)]
    else At(g, c)
  }

  function PartFormat(g: Grid, bits: seq<bool>, m: nat, n: nat): (g': Grid)
    requires Square(g) && |bits| == 16
    ensures Square(g') && |g'| == |g|
  {
    seq(|g|, y requires 0 <= y < |g| => seq(|g|, x requires 0 <= x < |g| => FormatModule(g, bits, m, n, Cell(x, y))))
  }

  /** The grid with both copies of the format bits drawn. */
  function WithFormat(g: Grid, bits: seq<bool>): (g': Grid)
    requires Square(g) && |bits| == 16
    ensures Square(g') && |g'| == |g|
  {
    PartFormat(g, bits, 15, 16)
  }

  lemma PartFormatAt(g: Grid, bits: seq<bool>, m: nat, n: nat)
    requires Square(g) && |bits| == 16
    ensures forall d: Cell :: InGrid(g, d) ==> At(PartFormat(g, bits, m, n), d) == FormatModule(g, bits, m, n, d)
  {
    hide FormatModule;
  }

  lemma FormatStart(g: Grid, bits: seq<bool>)
    requires Square(g) && |bits| == 16
    ensures PartFormat(g, bits, 0, 0) == g
  {
    hide PartFormat;
    PartFormatAt(g, bits, 0, 0);
    GridsEqual(PartFormat(g, bits, 0, 0), g);
  }

  /** Drawing one more bit of either copy. */
  lemma FormatStep(g: Grid, bits: seq<bool>, m: nat, n: nat)
    requires Square(g) && 21 <= |g| && |bits| == 16
    ensures n == 0 && m < 15 ==> InGrid(g, FirstCell(m))
    ensures n == 0 && m < 15 ==> Set(PartFormat(g, bits, m, 0), FirstCell(m), bits[m]) == PartFormat(g, bits, m + 1, 0)
    ensures n < 16 ==> InGrid(g, SecondCell(|g|, n))
    ensures n < 16 ==> Set(PartFormat(g, bits, m, n), SecondCell(|g|, n), bits[n]) == PartFormat(g, bits, m, n + 1)
  {
    SecondIndexIs(|g|);
    hide PartFormat, SecondIndex, FirstIndex, Set, At;
    if n == 0 && m < 15 {
      FormatSet(g, bits, m, 0, m + 1, 0, FirstCell(m), bits[m]);
    }
    if n < 16 {
      FormatSet(g, bits, m, n, m, n + 1, SecondCell(|g|, n), bits[n]);
    }
  }

  lemma FormatSet(g: Grid, bits: seq<bool>, m: nat, n: nat, m': nat, n': nat, c: Cell, v: bool)
    requires Square(g) && |bits| == 16 && InGrid(g, c)
    requires forall d: Cell :: FormatModule(g, bits, m', n', d) == if d == c then v else FormatModule(g, bits, m, n, d)
    ensures Set(PartFormat(g, bits, m, n), c, v) == PartFormat(g, bits, m', n')
  {
    hide PartFormat, FormatModule, Set, At;
    PartFormatAt(g, bits, m, n);
    PartFormatAt(g, bits, m', n');
    SetExact(PartFormat(g, bits, m, n), c, v);
    GridsEqual(Set(PartFormat(g, bits, m, n), c, v), PartFormat(g, bits, m', n'));
  }

  /** The module that format drawing puts at a format cell. */
  function FormatValue(size: nat, bits: seq<bool>, c: Cell): bool
    requires |bits| == 16 && IsFormatCell(size, c)
  {
    if SecondIndex(size, c) >= 0 then bits[SecondIndex(size, c)] else bits[FirstIndex(c)]
  }

  lemma WithFormatAt(g: Grid, bits: seq<bool>)
    requires Square(g) && |bits| == 16
    ensures forall d: Cell :: InGrid(g, d) ==>
      At(WithFormat(g, bits), d) == if IsFormatCell(|g|, d) then FormatValue(|g|, bits, d) else At(g, d)
  {
    PartFormatAt(g, bits, 15, 16);
    hide PartFormat, At, FirstIndex, SecondIndex;
  }

  /** What drawing format bits marks. */
  function AllDark(): (bits: seq<bool>)
    ensures |bits| == 16 && forall k :: 0 <= k < 16 ==> bits[k]
  {
    seq(16, _ => true)
  }

  /** All format cells are marked as function modules. */
  ghost predicate FormatReserved(functions: Grid) {
    Square(functions) && forall d: Cell :: InGrid(functions, d) && IsFormatCell(|functions|, d) ==> At(functions, d)
  }

  /** Marking format cells that are marked already changes nothing. */
  lemma ReservedMarks(functions: Grid)
    requires FormatReserved(functions)
    ensures WithFormat(functions, AllDark()) == functions
  {
    WithFormatAt(functions, AllDark());
    hide WithFormat, IsFormatCell, At;
    GridsEqual(WithFormat(functions, AllDark()), functions);
  }

  /** The symbol that a mask makes of an unmasked grid. */
  function Trial(g: Grid, functions: Grid, ecl: Ecc, msk: nat): (g': Grid)
    requires Square(g) && Square(functions) && |g| == |functions| && msk < 8
    ensures Square(g') && |g'| == |g|
  {
    WithFormat(Masked(g, functions, msk), FormatBits(FormatWord(ecl, msk)))
  }

  lemma TrialAt(g: Grid, functions: Grid, ecl: Ecc, msk: nat)
    requires Square(g) && Square(functions) && |g| == |functions| && msk < 8
    ensures forall d: Cell :: InGrid(g, d) ==>
      At(Trial(g, functions, ecl, msk), d) ==
        if IsFormatCell(|g|, d) then FormatValue(|g|, FormatBits(FormatWord(ecl, msk)), d)
        else (At(g, d) != (Inverts(msk, d.x, d.y) && !At(functions, d)))
  {
    hide WithFormat, Masked, Inverts, FormatValue, FormatWord, FormatBits, IsFormatCell, At;
    MaskedAt(g, functions, msk);
    WithFormatAt(Masked(g, functions, msk), FormatBits(FormatWord(ecl, msk)));
  }

  /** Format bits drawn before are overwritten, and masks leave format cells alone. */
  lemma TrialForgetsFormat(g: Grid, functions: Grid, ecl: Ecc, bits: seq<bool>, msk: nat)
    requires Square(g) && Square(functions) && |g| == |functions| && msk < 8 && |bits| == 16
    ensures Trial(WithFormat(g, bits), functions, ecl, msk) == Trial(g, functions, ecl, msk)
  {
    hide WithFormat, Trial, Masked, Inverts, FormatValue, FormatWord, FormatBits, IsFormatCell, At;
    WithFormatAt(g, bits);
    TrialAt(WithFormat(g, bits), functions, ecl, msk);
    TrialAt(g, functions, ecl, msk);
    GridsEqual(Trial(WithFormat(g, bits), functions, ecl, msk), Trial(g, functions, ecl, msk));
  }

  /** Taking the mask off a trial symbol leaves the unmasked grid with that mask's format bits. */
  lemma TrialUndone(g: Grid, functions: Grid, ecl: Ecc, msk: nat)
    requires Square(g) && |g| == |functions| && FormatReserved(functions) && msk < 8
    ensures Masked(Trial(g, functions, ecl, msk), functions, msk) == WithFormat(g, FormatBits(FormatWord(ecl, msk)))
  {
    hide WithFormat, Trial, Masked, Inverts, FormatValue, FormatWord, FormatBits, IsFormatCell, At;
    TrialAt(g, functions, ecl, msk);
    MaskedAt(Trial(g, functions, ecl, msk), functions, msk);
    WithFormatAt(g, FormatBits(FormatWord(ecl, msk)));
    GridsEqual(Masked(Trial(g, functions, ecl, msk), functions, msk), WithFormat(g, FormatBits(FormatWord(ecl, msk))));
  }
}
