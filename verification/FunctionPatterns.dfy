/** The function patterns of a symbol: which modules they cover. */
module FunctionPatterns {
  import opened Common
  import opened QrTables
  import opened ZigzagScan
  import opened Penalty
  import opened QrGrid

  function SizeOf(ver: int): (n: nat)
    requires IsVersion(ver)
    ensures 21 <= n <= 177 && IsSize(n)
  {
    ver * 4 + 17
  }

  // ---------- Alignment patterns ----------

  /** The number of alignment positions on each axis. */
  function NumAlign(ver: int): (k: nat)
    requires IsVersion(ver)
    ensures k != 1
  {
    if ver == 1 then 0 else ver / 7 + 2
  }

  function AlignStep(ver: int): nat
    requires IsVersion(ver) && ver >= 2
  {
    if ver == 32 then 26 else (ver * 4 + NumAlign(ver) * 2 + 1) / (NumAlign(ver) * 2 - 2) * 2
  }

  /** Alignment position number `i` on either axis. */
  function AlignPosition(ver: int, i: nat): int
    requires IsVersion(ver) && ver >= 2
  {
    if i == 0 then 6 else SizeOf(ver) - 7 - AlignStep(ver) * (NumAlign(ver) - 1 - i)
  }

  predicate Near(p: int, x: int) {
    p - 2 <= x <= p + 2
  }

  /** The three corners are left to the finder patterns. */
  predicate IsCorner(ver: int, i: nat, j: nat)
    requires IsVersion(ver)
  {
    (i == 0 && j == 0) || (i == 0 && j == NumAlign(ver) - 1) || (i == NumAlign(ver) - 1 && j == 0)
  }

  ghost predicate InAlignment(ver: int, c: Cell)
    requires IsVersion(ver)
  {
    ver >= 2 && exists i: nat, j: nat :: AlignedAt(ver, c, i, j)
  }

  predicate AlignedAt(ver: int, c: Cell, i: nat, j: nat)
    requires IsVersion(ver) && ver >= 2
  {
    i < NumAlign(ver) && j < NumAlign(ver) && !IsCorner(ver, i, j) && Near(AlignPosition(ver, i), c.x)
      && Near(AlignPosition(ver, j), c.y)
  }

  // ---------- Patterns ----------

  /** The function patterns except the format bits. */
  datatype Pattern = Timing | Finder(px: int, py: int) | Alignment(px: int, py: int) | VersionInfo(ver: int)

  /** The larger of the two distances from a pattern's centre. */
  function Ring(px: int, py: int, c: Cell): nat {
    if Abs(c.x - px) > Abs(c.y - py) then Abs(c.x - px) else Abs(c.y - py)
  }

  /** The modules that a pattern covers in a symbol of a size; finder patterns include their light border. */
  predicate Covers(p: Pattern, size: int, c: Cell) {
    match p
    case Timing => c.x == 6 || c.y == 6
    case Finder(px, py) => Ring(px, py, c) <= 4
    case Alignment(px, py) => Ring(px, py, c) <= 2
    case VersionInfo(ver) =>
      ver >= 7 && ((size - 11 <= c.x <= size - 9 && 0 <= c.y <= 5) || (size - 11 <= c.y <= size - 9 && 0 <= c.x <= 5))
  }

  /** Whether a pattern is dark at a module that it covers. */
  predicate ShowsDark(p: Pattern, size: int, c: Cell) {
    match p
    case Timing => (if c.x == 6 then c.y else c.x) % 2 == 0
    case Finder(px, py) => Ring(px, py, c) != 2 && Ring(px, py, c) != 4
    case Alignment(px, py) => Ring(px, py, c) != 1
    case VersionInfo(ver) =>
      IsVersion(ver) && VersionBit(ver, if c.y <= 5 then 3 * c.y + c.x - (size - 11) else 3 * c.x + c.y - (size - 11))
  }

  /** The grid with a pattern drawn, or, for marks, with all modules of the pattern marked. */
  function Painted(g: Grid, p: Pattern, marks: bool): (g': Grid)
    requires Square(g)
    ensures Square(g') && |g'| == |g|
  {
    seq(|g|, y requires 0 <= y < |g| => seq(|g|, x requires 0 <= x < |g| =>
      if Covers(p, |g|, Cell(x, y)) then marks || ShowsDark(p, |g|, Cell(x, y)) else g[y][x]))
  }

  lemma PaintedAt(g: Grid, p: Pattern, marks: bool)
    requires Square(g)
    ensures forall d: Cell :: InGrid(g, d) ==>
      At(Painted(g, p, marks), d) == if Covers(p, |g|, d) then marks || ShowsDark(p, |g|, d) else At(g, d)
  {
    hide Covers, ShowsDark;
  }

  function PaintedAll(g: Grid, ps: seq<Pattern>, marks: bool): (g': Grid)
    requires Square(g)
    ensures Square(g') && |g'| == |g|
  {
    if ps == [] then g else Painted(PaintedAll(g, ps[..|ps| - 1], marks), ps[|ps| - 1], marks)
  }

  predicate CoveredBy(ps: seq<Pattern>, size: int, c: Cell) {
    exists k :: 0 <= k < |ps| && Covers(ps[k], size, c)
  }

  lemma {:induction false} MarkedAllAt(g: Grid, ps: seq<Pattern>)
    requires Square(g)
    ensures forall d: Cell :: InGrid(g, d) ==> At(PaintedAll(g, ps, true), d) == (CoveredBy(ps, |g|, d) || At(g, d))
  {
    if ps != [] {
      var init, last := ps[..|ps| - 1], ps[|ps| - 1];
      MarkedAllAt(g, init);
      PaintedAt(PaintedAll(g, init, true), last, true);
      assert ps == init + [last];
      hide Covers, Painted, At;
      forall d
        ensures CoveredBy(ps, |g|, d) <==> CoveredBy(init, |g|, d) || Covers(last, |g|, d)
      {
        CoveredSnoc(init, last, |g|, d);
      }
    }
  }

  lemma CoveredSnoc(ps: seq<Pattern>, p: Pattern, size: int, c: Cell)
    ensures CoveredBy(ps + [p], size, c) <==> CoveredBy(ps, size, c) || Covers(p, size, c)
  {
    hide Covers;
    if CoveredBy(ps, size, c) {
      var k :| 0 <= k < |ps| && Covers(ps[k], size, c);
      assert (ps + [p])[k] == ps[k];
    }
    assert (ps + [p])[|ps|] == p;
  }

  /** The alignment patterns in column `i` and the first `m` rows. */
  function AlignmentsIn(ver: int, i: nat, m: nat): seq<Pattern>
    requires IsVersion(ver) && ver >= 2
  {
    if m == 0 then []
    else if IsCorner(ver, i, m - 1) then AlignmentsIn(ver, i, m - 1)
    else AlignmentsIn(ver, i, m - 1) + [Alignment(AlignPosition(ver, i), AlignPosition(ver, m - 1))]
  }

  /** The alignment patterns in the first `m` columns. */
  function Alignments(ver: int, m: nat): seq<Pattern>
    requires IsVersion(ver) && ver >= 2
  {
    if m == 0 then [] else Alignments(ver, m - 1) + AlignmentsIn(ver, m - 1, NumAlign(ver))
  }

  /** The patterns drawn before the format bits, in order. */
  function FirstPatterns(ver: int): seq<Pattern>
    requires IsVersion(ver)
  {
    [Timing, Finder(3, 3), Finder(SizeOf(ver) - 4, 3), Finder(3, SizeOf(ver) - 4)] +
    (if ver >= 2 then Alignments(ver, NumAlign(ver)) else [])
  }

  /** A grid with only light modules. */
  function Blank(n: nat): (g: Grid)
    requires n > 0
    ensures Square(g) && |g| == n
  {
    seq(n, _ => seq(n, _ => false))
  }

  /** The modules of a symbol after its function patterns are drawn. */
  function PatternGrid(ver: int, ecl: Ecc): (g: Grid)
    requires IsVersion(ver)
    ensures Square(g) && |g| == SizeOf(ver)
  {
    var first := PaintedAll(Blank(SizeOf(ver)), FirstPatterns(ver), false);
    Painted(WithFormat(first, FormatBits(FormatWord(ecl, 0))), VersionInfo(ver), false)
  }

  /** The marks of a symbol's function modules. */
  function FunctionMarks(ver: int): (g: Grid)
    requires IsVersion(ver)
    ensures Square(g) && |g| == SizeOf(ver)
  {
    Painted(WithFormat(PaintedAll(Blank(SizeOf(ver)), FirstPatterns(ver), true), AllDark()), VersionInfo(ver), true)
  }

  /** A cell of a symbol belongs to a function pattern. */
  ghost predicate IsFunction(ver: int, c: Cell)
    requires IsVersion(ver)
  {
    var size := SizeOf(ver);
    || Covers(Timing, size, c)
    || Covers(Finder(3, 3), size, c) || Covers(Finder(size - 4, 3), size, c) || Covers(Finder(3, size - 4), size, c)
    || InAlignment(ver, c)
    || IsFormatCell(size, c)
    || Covers(VersionInfo(ver), size, c)
  }

  lemma RingNear(px: int, py: int, c: Cell)
    ensures Ring(px, py, c) <= 2 <==> Near(px, c.x) && Near(py, c.y)
    ensures Ring(px, py, c) <= 4 <==> px - 4 <= c.x <= px + 4 && py - 4 <= c.y <= py + 4
  {}

  lemma CoveredConcat(a: seq<Pattern>, b: seq<Pattern>, size: int, c: Cell)
    ensures CoveredBy(a + b, size, c) <==> CoveredBy(a, size, c) || CoveredBy(b, size, c)
  {
    hide Covers;
    if CoveredBy(a, size, c) {
      var k :| 0 <= k < |a| && Covers(a[k], size, c);
      assert (a + b)[k] == a[k];
    }
    if CoveredBy(b, size, c) {
      var k :| 0 <= k < |b| && Covers(b[k], size, c);
      assert (a + b)[|a| + k] == b[k];
    }
  }

  lemma {:induction false} AlignmentsInCover(ver: int, i: nat, m: nat, c: Cell)
    requires IsVersion(ver) && ver >= 2 && i < NumAlign(ver) && m <= NumAlign(ver)
    ensures CoveredBy(AlignmentsIn(ver, i, m), SizeOf(ver), c) <==> exists j: nat :: j < m && AlignedAt(ver, c, i, j)
  {
    if m > 0 {
      AlignmentsInCover(ver, i, m - 1, c);
      var p := Alignment(AlignPosition(ver, i), AlignPosition(ver, m - 1));
      CoveredSnoc(AlignmentsIn(ver, i, m - 1), p, SizeOf(ver), c);
      RingNear(AlignPosition(ver, i), AlignPosition(ver, m - 1), c);
      assert AlignedAt(ver, c, i, m - 1) <==> !IsCorner(ver, i, m - 1) && Covers(p, SizeOf(ver), c);
      hide *;
      InColumnUnfold(ver, i, m - 1);
    } else {
      NothingCovered(SizeOf(ver), c);
    }
  }

  lemma InColumnUnfold(ver: int, i: nat, m: nat)
    requires IsVersion(ver) && ver >= 2
    ensures AlignmentsIn(ver, i, m + 1) == if IsCorner(ver, i, m) then AlignmentsIn(ver, i, m)
      else AlignmentsIn(ver, i, m) + [Alignment(AlignPosition(ver, i), AlignPosition(ver, m))]
  {
    hide AlignPosition, IsCorner;
  }

  lemma {:induction false} AlignmentsCover(ver: int, m: nat, c: Cell)
    requires IsVersion(ver) && ver >= 2 && m <= NumAlign(ver)
    ensures CoveredBy(Alignments(ver, m), SizeOf(ver), c) <==> exists i: nat, j: nat :: i < m && AlignedAt(ver, c, i, j)
  {
    hide Covers, CoveredBy, AlignPosition, SizeOf, AlignmentsIn;
    if m == 0 {
      NothingCovered(SizeOf(ver), c);
    } else {
      AlignmentsCover(ver, m - 1, c);
      AlignmentsInCover(ver, m - 1, NumAlign(ver), c);
      CoveredConcat(Alignments(ver, m - 1), AlignmentsIn(ver, m - 1, NumAlign(ver)), SizeOf(ver), c);
    }
  }

  lemma NothingCovered(size: int, c: Cell)
    ensures !CoveredBy([], size, c)
  {}

  lemma FirstPatternsCover(ver: int, c: Cell)
    requires IsVersion(ver)
    ensures CoveredBy(FirstPatterns(ver), SizeOf(ver), c) <==>
      (var size := SizeOf(ver);
       || Covers(Timing, size, c) || Covers(Finder(3, 3), size, c) || Covers(Finder(size - 4, 3), size, c)
       || Covers(Finder(3, size - 4), size, c) || InAlignment(ver, c))
  {
    var size := SizeOf(ver);
    var four := [Timing, Finder(3, 3), Finder(size - 4, 3), Finder(3, size - 4)];
    NothingCovered(size, c);
    if ver >= 2 {
      AlignmentsCover(ver, NumAlign(ver), c);
    }
    hide Covers, CoveredBy, Alignments, SizeOf;
    CoveredSnoc([], Timing, size, c);
    CoveredSnoc([Timing], Finder(3, 3), size, c);
    CoveredSnoc([Timing, Finder(3, 3)], Finder(size - 4, 3), size, c);
    CoveredSnoc([Timing, Finder(3, 3), Finder(size - 4, 3)], Finder(3, size - 4), size, c);
    assert [] + [Timing] == [Timing];
    assert [Timing] + [Finder(3, 3)] == [Timing, Finder(3, 3)];
    assert [Timing, Finder(3, 3)] + [Finder(size - 4, 3)] == [Timing, Finder(3, 3), Finder(size - 4, 3)];
    assert [Timing, Finder(3, 3), Finder(size - 4, 3)] + [Finder(3, size - 4)] == four;
    CoveredConcat(four, if ver >= 2 then Alignments(ver, NumAlign(ver)) else [], size, c);
  }

  /** The marks made by drawing are exactly those of the function patterns. */
  lemma MarksAreFunctions(ver: int, c: Cell)
    requires IsVersion(ver) && 0 <= c.x < SizeOf(ver) && 0 <= c.y < SizeOf(ver)
    ensures At(FunctionMarks(ver), c) <==> IsFunction(ver, c)
  {
    var n := SizeOf(ver);
    var first := PaintedAll(Blank(n), FirstPatterns(ver), true);
    MarkedAllAt(Blank(n), FirstPatterns(ver));
    FirstPatternsCover(ver, c);
    WithFormatAt(first, AllDark());
    PaintedAt(WithFormat(first, AllDark()), VersionInfo(ver), true);
    hide Covers, CoveredBy, FirstPatterns, SizeOf, PaintedAll, WithFormat, Painted, InAlignment, IsFormatCell;
  }

  lemma AlignFacts(ver: int)
    requires IsVersion(ver) && ver >= 2
    ensures 2 <= NumAlign(ver) <= 7
    ensures NumAlign(ver) >= 3 ==> 18 <= AlignPosition(ver, 1) && ver >= 7 && AlignStep(ver) >= 16
  {
    var k, size := NumAlign(ver), SizeOf(ver);
    if k == 3 {
      assert AlignPosition(ver, 1) == size - 7 - AlignStep(ver);
    } else if k == 4 {
      assert AlignPosition(ver, 1) == size - 7 - AlignStep(ver) * 2;
    } else if k == 5 {
      assert AlignPosition(ver, 1) == size - 7 - AlignStep(ver) * 3;
    } else if k == 6 {
      assert AlignPosition(ver, 1) == size - 7 - AlignStep(ver) * 4;
    } else if k == 7 {
      assert AlignPosition(ver, 1) == size - 7 - AlignStep(ver) * 5;
    }
  }

  /** Alignment patterns keep apart, and those that are in neither the first nor the last row or column stay clear of
      both finder patterns and the version information on that axis. */
  lemma AlignmentsApart(ver: int, i: nat)
    requires IsVersion(ver) && ver >= 2 && i + 1 < NumAlign(ver)
    ensures AlignPosition(ver, i) + 12 <= AlignPosition(ver, i + 1)
    ensures i >= 1 ==> 10 < AlignPosition(ver, i) - 2 && AlignPosition(ver, i) + 2 < SizeOf(ver) - 11
    ensures AlignPosition(ver, 0) == 6 && AlignPosition(ver, NumAlign(ver) - 1) == SizeOf(ver) - 7
  {
    hide *;
    AlignFacts(ver);
    PositionIs(ver, 0);
    PositionIs(ver, 1);
    PositionStep(ver, if i == 0 then 1 else i);
    if i >= 1 {
      PositionRange(ver, i + 1);
      PositionAfterFirst(ver, i);
    } else if NumAlign(ver) == 2 {
      SizeIs(ver);
    }
  }

  lemma SizeIs(ver: int)
    requires IsVersion(ver) && ver >= 2
    ensures SizeOf(ver) >= 25
  {}

  lemma {:induction false} PositionAfterFirst(ver: int, i: nat)
    requires IsVersion(ver) && ver >= 2 && 1 <= i < NumAlign(ver)
    ensures AlignPosition(ver, 1) <= AlignPosition(ver, i)
  {
    hide *;
    if i > 1 {
      PositionAfterFirst(ver, i - 1);
      PositionStep(ver, i - 1);
    }
  }

  lemma PositionStep(ver: int, i: nat)
    requires IsVersion(ver) && ver >= 2 && 1 <= i
    ensures AlignPosition(ver, i + 1) == AlignPosition(ver, i) + AlignStep(ver)
    ensures AlignPosition(ver, NumAlign(ver) - 1) == SizeOf(ver) - 7
  {
    var d := NumAlign(ver) - 1 - i;
    assert AlignStep(ver) * (d - 1) == AlignStep(ver) * d - AlignStep(ver);
  }

  // ---------- Drawing cell by cell ----------

  /** The grid while a pattern is being drawn: the cells in `done` show it, the others are as before. */
  ghost predicate Shown(now: Grid, before: Grid, p: Pattern, marks: bool, done: iset<Cell>) {
    && Square(now) && Square(before) && |now| == |before|
    && forall d: Cell :: InGrid(before, d) ==>
      At(now, d) == if d in done then marks || ShowsDark(p, |before|, d) else At(before, d)
  }

  lemma ShownStart(g: Grid, p: Pattern, marks: bool)
    requires Square(g)
    ensures Shown(g, g, p, marks, iset{})
  {
    hide ShowsDark;
  }

  lemma ShownStep(now: Grid, before: Grid, p: Pattern, marks: bool, done: iset<Cell>, c: Cell, v: bool)
    requires Shown(now, before, p, marks, done) && InGrid(before, c) && v == (marks || ShowsDark(p, |before|, c))
    ensures InGrid(now, c) && Shown(Set(now, c, v), before, p, marks, done + iset{c})
  {
    SetExact(now, c, v);
    hide ShowsDark, Set, At;
  }

  lemma ShownEnd(now: Grid, before: Grid, p: Pattern, marks: bool, done: iset<Cell>)
    requires Shown(now, before, p, marks, done)
    requires forall d: Cell :: InGrid(before, d) ==> (d in done <==> Covers(p, |before|, d))
    ensures now == Painted(before, p, marks)
  {
    PaintedAt(before, p, marks);
    hide ShowsDark, Covers, At, Painted;
    GridsEqual(now, Painted(before, p, marks));
  }

  lemma PaintedAllSnoc(g: Grid, ps: seq<Pattern>, p: Pattern, marks: bool)
    requires Square(g)
    ensures PaintedAll(g, [], marks) == g
    ensures PaintedAll(g, ps + [p], marks) == Painted(PaintedAll(g, ps, marks), p, marks)
  {
    hide Painted;
    assert (ps + [p])[..|ps|] == ps;
  }

  lemma PaintedAllConcat(g: Grid, a: seq<Pattern>, b: seq<Pattern>, marks: bool)
    requires Square(g)
    ensures PaintedAll(g, a + b, marks) == PaintedAll(PaintedAll(g, a, marks), b, marks)
    decreases |b|
  {
    hide Painted;
    if b == [] {
      assert a + b == a;
    } else {
      var init, p := b[..|b| - 1], b[|b| - 1];
      assert b == init + [p] && a + b == a + init + [p];
      PaintedAllConcat(g, a, init, marks);
      hide PaintedAll;
      PaintedAllSnoc(g, a + init, p, marks);
      PaintedAllSnoc(PaintedAll(g, a, marks), init, p, marks);
    }
  }

  lemma PositionRange(ver: int, i: nat)
    requires IsVersion(ver) && ver >= 2 && i < NumAlign(ver)
    ensures 6 <= AlignPosition(ver, i) <= SizeOf(ver) - 7
    ensures i > 0 ==> AlignPosition(ver, i) == SizeOf(ver) - 7 - AlignStep(ver) * (NumAlign(ver) - 1 - i)
  {
    hide *;
    AlignFacts(ver);
    PositionIs(ver, i);
    var k := NumAlign(ver);
    if i > 0 {
      StepTimes(AlignStep(ver), k - 1 - i, k - 2);
      if k >= 3 {
        PositionIs(ver, 1);
      }
    }
  }

  lemma PositionIs(ver: int, i: nat)
    requires IsVersion(ver) && ver >= 2
    ensures 21 <= SizeOf(ver)
      && AlignPosition(ver, i) == if i == 0 then 6 else SizeOf(ver) - 7 - AlignStep(ver) * (NumAlign(ver) - 1 - i)
  {
    hide AlignStep, NumAlign;
  }

  lemma StepTimes(s: nat, d: nat, m: nat)
    requires d <= m
    ensures 0 <= s * d <= s * m
  {
    assert s * m == s * d + s * (m - d);
  }

  lemma AlignmentsUnfold(ver: int, i: nat, j: nat)
    requires IsVersion(ver) && ver >= 2
    ensures Alignments(ver, 0) == [] && AlignmentsIn(ver, i, 0) == []
    ensures Alignments(ver, i + 1) == Alignments(ver, i) + AlignmentsIn(ver, i, NumAlign(ver))
    ensures AlignmentsIn(ver, i, j + 1) == if IsCorner(ver, i, j) then AlignmentsIn(ver, i, j)
      else AlignmentsIn(ver, i, j) + [Alignment(AlignPosition(ver, i), AlignPosition(ver, j))]
  {
    hide AlignPosition, IsCorner, NumAlign;
  }

  /** Before version 7 there is no version information. */
  lemma NoVersionInfo(g: Grid, ver: int, marks: bool)
    requires Square(g) && ver < 7
    ensures Painted(g, VersionInfo(ver), marks) == g
  {
    PaintedAt(g, VersionInfo(ver), marks);
    hide Painted, ShowsDark, At;
    GridsEqual(Painted(g, VersionInfo(ver), marks), g);
  }
}
