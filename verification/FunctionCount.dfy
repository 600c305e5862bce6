/** The number of modules that the function patterns leave free. */
module FunctionCount {
  import opened Common
  import opened QrTables
  import opened ZigzagScan
  import Penalty
  import opened QrGrid
  import opened FunctionPatterns

  function One(b: bool): int {
    if b then 1 else 0
  }

  // ---------- Inner alignment positions ----------

  /** How many of the alignment positions 1 to m are near `x`. */
  function InnerHits(ver: int, x: int, m: nat): nat
    requires IsVersion(ver) && ver >= 2
  {
    if m == 0 then 0 else InnerHits(ver, x, m - 1) + One(Near(AlignPosition(ver, m), x))
  }

  /** Near an alignment position that is neither the first nor the last. */
  predicate NearInner(ver: int, x: int)
    requires IsVersion(ver)
  {
    ver >= 2 && InnerHits(ver, x, NumAlign(ver) - 2) > 0
  }

  predicate NearLast(ver: int, x: int)
    requires IsVersion(ver)
  {
    ver >= 2 && Near(SizeOf(ver) - 7, x)
  }

  lemma {:induction false} PositionsIncrease(ver: int, i: nat, j: nat)
    requires IsVersion(ver) && NumAlign(ver) >= 3 && 1 <= i <= j
    ensures AlignPosition(ver, i) + 16 * (j - i) <= AlignPosition(ver, j)
  {
    AlignFacts(ver);
    if i < j {
      PositionsIncrease(ver, i, j - 1);
      PositionStep(ver, j - 1);
    }
  }

  lemma {:induction false} InnerHitsExact(ver: int, x: int, m: nat)
    requires IsVersion(ver) && ver >= 2 && m <= NumAlign(ver) - 2
    ensures InnerHits(ver, x, m) <= 1
    ensures InnerHits(ver, x, m) > 0 <==> exists i: nat :: 1 <= i <= m && Near(AlignPosition(ver, i), x)
    ensures InnerHits(ver, x, m) > 0 ==> 9 <= x <= AlignPosition(ver, m) + 2 && m >= 1
  {
    if m > 0 {
      InnerHitsExact(ver, x, m - 1);
      AlignFacts(ver);
      PositionsIncrease(ver, 1, m);
      if m > 1 {
        PositionsIncrease(ver, m - 1, m);
      }
      hide AlignPosition, AlignStep, NumAlign;
    }
  }

  lemma InnerRange(ver: int, x: int)
    requires IsVersion(ver) && NearInner(ver, x)
    ensures 9 <= x <= SizeOf(ver) - 21 && ver >= 7
  {
    var m := NumAlign(ver) - 2;
    InnerHitsExact(ver, x, m);
    AlignFacts(ver);
    PositionStep(ver, m);
    hide AlignPosition, AlignStep, InnerHits;
  }

  /** Alignment patterns by the kinds of their coordinates. */
  predicate AlignmentKind(ver: int, x: int, y: int)
    requires IsVersion(ver)
  {
    || (NearInner(ver, x) && (Near(6, y) || NearInner(ver, y) || NearLast(ver, y)))
    || (Near(6, x) && NearInner(ver, y))
    || (NearLast(ver, x) && (NearInner(ver, y) || NearLast(ver, y)))
  }

  lemma AlignmentKinds(ver: int, c: Cell)
    requires IsVersion(ver)
    ensures InAlignment(ver, c) <==> AlignmentKind(ver, c.x, c.y)
  {
    if ver >= 2 {
      AlignmentHasKind(ver, c);
      KindHasAlignment(ver, c);
    }
  }

  lemma AlignmentHasKind(ver: int, c: Cell)
    requires IsVersion(ver) && ver >= 2
    ensures InAlignment(ver, c) ==> AlignmentKind(ver, c.x, c.y)
  {
    var k := NumAlign(ver);
    InnerExact(ver, c.x);
    InnerExact(ver, c.y);
    hide AlignStep, NearInner, NumAlign;
    if InAlignment(ver, c) {
      var i: nat, j: nat :| AlignedAt(ver, c, i, j);
      PositionKind(ver, i);
      PositionKind(ver, j);
      hide AlignPosition;
      assert 1 <= i <= k - 2 ==> NearInner(ver, c.x);
      assert 1 <= j <= k - 2 ==> NearInner(ver, c.y);
    }
  }

  lemma KindHasAlignment(ver: int, c: Cell)
    requires IsVersion(ver) && ver >= 2
    ensures AlignmentKind(ver, c.x, c.y) ==> InAlignment(ver, c)
  {
    var k := NumAlign(ver);
    InnerExact(ver, c.x);
    InnerExact(ver, c.y);
    PositionKind(ver, 0);
    PositionKind(ver, k - 1);
    hide AlignStep, NearInner, NumAlign, AlignPosition;
    if NearInner(ver, c.x) {
      var i: nat :| 1 <= i <= k - 2 && Near(AlignPosition(ver, i), c.x);
      if Near(6, c.y) {
        assert AlignedAt(ver, c, i, 0);
      } else if NearLast(ver, c.y) {
        assert AlignedAt(ver, c, i, k - 1);
      } else if NearInner(ver, c.y) {
        var j: nat :| 1 <= j <= k - 2 && Near(AlignPosition(ver, j), c.y);
        assert AlignedAt(ver, c, i, j);
      }
    } else if NearInner(ver, c.y) {
      var j: nat :| 1 <= j <= k - 2 && Near(AlignPosition(ver, j), c.y);
      if Near(6, c.x) {
        assert AlignedAt(ver, c, 0, j);
      } else if NearLast(ver, c.x) {
        assert AlignedAt(ver, c, k - 1, j);
      }
    } else if NearLast(ver, c.x) && NearLast(ver, c.y) {
      assert AlignedAt(ver, c, k - 1, k - 1);
    }
  }

  lemma InnerExact(ver: int, x: int)
    requires IsVersion(ver) && ver >= 2
    ensures NumAlign(ver) >= 2
    ensures NearInner(ver, x) <==> exists i: nat :: 1 <= i <= NumAlign(ver) - 2 && Near(AlignPosition(ver, i), x)
  {
    AlignFacts(ver);
    InnerHitsExact(ver, x, NumAlign(ver) - 2);
    hide AlignPosition, AlignStep, NumAlign, InnerHits;
  }

  lemma PositionKind(ver: int, i: nat)
    requires IsVersion(ver) && ver >= 2 && i < NumAlign(ver)
    ensures i == 0 ==> AlignPosition(ver, i) == 6
    ensures i == NumAlign(ver) - 1 && i > 0 ==> AlignPosition(ver, i) == SizeOf(ver) - 7
  {
    PositionStep(ver, 1);
  }

  // ---------- Counting along an axis ----------

  /** A range of coordinates, or the coordinates near an inner alignment position. */
  datatype Span = Span(lo: int, hi: int) | Inner

  predicate On(ver: int, s: Span, x: int)
    requires IsVersion(ver)
  {
    match s
    case Span(lo, hi) => lo <= x <= hi
    case Inner => NearInner(ver, x)
  }

  /** How many of the first `m` coordinates are in the span. */
  function CountOn(ver: int, s: Span, m: nat): nat
    requires IsVersion(ver)
  {
    if m == 0 then 0 else CountOn(ver, s, m - 1) + One(On(ver, s, m - 1))
  }

  lemma {:induction false} CountSpan(ver: int, lo: nat, hi: nat, m: nat)
    requires IsVersion(ver) && lo <= hi
    ensures CountOn(ver, Span(lo, hi), m) == if m <= lo then 0 else if m > hi then hi - lo + 1 else m - lo
  {
    if m > 0 {
      CountSpan(ver, lo, hi, m - 1);
    }
  }

  /** How many of the first `m` coordinates are near the alignment positions 1 to j, position by position. */
  function SumHits(ver: int, j: nat, m: nat): nat
    requires IsVersion(ver) && ver >= 2
  {
    if m == 0 then 0 else SumHits(ver, j, m - 1) + InnerHits(ver, m - 1, j)
  }

  lemma {:induction false} SumHitsSplit(ver: int, j: nat, m: nat)
    requires IsVersion(ver) && ver >= 2 && j > 0
    ensures var p := AlignPosition(ver, j);
      SumHits(ver, j, m) == SumHits(ver, j - 1, m) + CountOn(ver, Span(p - 2, p + 2), m)
  {
    hide AlignPosition;
    if m > 0 {
      SumHitsSplit(ver, j, m - 1);
    }
  }

  lemma {:induction false} SumHitsNone(ver: int, m: nat)
    requires IsVersion(ver) && ver >= 2
    ensures SumHits(ver, 0, m) == 0
  {
    if m > 0 {
      SumHitsNone(ver, m - 1);
    }
  }

  lemma {:induction false} SumHitsTotal(ver: int, j: nat)
    requires IsVersion(ver) && ver >= 2 && j <= NumAlign(ver) - 2
    ensures SumHits(ver, j, SizeOf(ver)) == 5 * j
  {
    if j == 0 {
      SumHitsNone(ver, SizeOf(ver));
    } else {
      SumHitsTotal(ver, j - 1);
      SumHitsSplit(ver, j, SizeOf(ver));
      PositionInside(ver, j);
      hide AlignPosition, SumHits, CountOn;
      CountSpan(ver, AlignPosition(ver, j) - 2, AlignPosition(ver, j) + 2, SizeOf(ver));
    }
  }

  lemma PositionInside(ver: int, j: nat)
    requires IsVersion(ver) && ver >= 2 && 1 <= j <= NumAlign(ver) - 2
    ensures 11 <= AlignPosition(ver, j) <= SizeOf(ver) - 23
  {
    AlignFacts(ver);
    PositionsIncrease(ver, 1, j);
    PositionsIncrease(ver, j, NumAlign(ver) - 1);
    PositionStep(ver, 1);
  }

  lemma {:induction false} InnerIsSum(ver: int, m: nat)
    requires IsVersion(ver) && ver >= 2
    ensures CountOn(ver, Inner, m) == SumHits(ver, NumAlign(ver) - 2, m)
  {
    hide AlignPosition, InnerHits;
    AlignFacts(ver);
    if m > 0 {
      InnerIsSum(ver, m - 1);
      InnerHitsExact(ver, m - 1, NumAlign(ver) - 2);
    }
  }

  lemma {:induction false} NoInner(ver: int, m: nat)
    requires IsVersion(ver) && ver < 2
    ensures CountOn(ver, Inner, m) == 0
  {
    if m > 0 {
      NoInner(ver, m - 1);
    }
  }

  /** The number of inner alignment positions. */
  function NumInner(ver: int): (k: nat)
    requires IsVersion(ver)
    ensures k <= 5
  {
    if ver == 1 then 0 else NumAlign(ver) - 2
  }

  lemma CountInner(ver: int)
    requires IsVersion(ver)
    ensures CountOn(ver, Inner, SizeOf(ver)) == 5 * NumInner(ver)
  {
    if ver == 1 {
      NoInner(ver, SizeOf(ver));
    } else {
      InnerIsSum(ver, SizeOf(ver));
      AlignFacts(ver);
      SumHitsTotal(ver, NumAlign(ver) - 2);
    }
  }

  // ---------- A row of modules ----------

  /** Whether a function pattern covers a cell, by its coordinates and by whether they are near inner alignment
      positions; `many` says that there are alignment patterns, `late` that there is version information. */
  predicate Covered(n: int, many: bool, late: bool, ix: bool, iy: bool, x: int, y: int) {
    || (x <= 8 && (y <= 8 || y >= n - 8)) || (x >= n - 8 && y <= 8) || x == 6 || y == 6
    || (late && ((n - 11 <= x <= n - 9 && y <= 5) || (n - 11 <= y <= n - 9 && x <= 5)))
    || (ix && (Near(6, y) || iy || (many && Near(n - 7, y))))
    || (iy && (Near(6, x) || (many && Near(n - 7, x))))
    || (many && Near(n - 7, x) && Near(n - 7, y))
  }

  lemma FormatCells(size: nat, c: Cell)
    requires 21 <= size && 0 <= c.x < size && 0 <= c.y < size
    ensures IsFormatCell(size, c) <==>
      || (c.x == 8 && ((c.y <= 8 && c.y != 6) || c.y >= size - 8))
      || (c.y == 8 && ((c.x <= 8 && c.x != 6) || c.x >= size - 8))
  {}

  lemma FunctionIsCovered(ver: int, x: int, y: int)
    requires IsVersion(ver) && 0 <= x < SizeOf(ver) && 0 <= y < SizeOf(ver)
    ensures IsFunction(ver, Cell(x, y)) <==>
      Covered(SizeOf(ver), ver >= 2, ver >= 7, NearInner(ver, x), NearInner(ver, y), x, y)
  {
    hide *;
    var c, n := Cell(x, y), SizeOf(ver);
    FunctionUnfold(ver, c);
    AlignmentKinds(ver, c);
    AlignmentKindIs(ver, x, y);
    FormatCells(n, c);
    FinderCorners(n, x, y);
    CoveredIs(n, ver >= 2, ver >= 7, NearInner(ver, x), NearInner(ver, y), x, y);
  }

  lemma FunctionUnfold(ver: int, c: Cell)
    requires IsVersion(ver)
    ensures var n := SizeOf(ver);
      21 <= n && IsFunction(ver, c) ==
        (c.x == 6 || c.y == 6 || InFinders(n, c.x, c.y) || InAlignment(ver, c) || IsFormatCell(n, c)
         || (ver >= 7 && ((n - 11 <= c.x <= n - 9 && 0 <= c.y <= 5) || (n - 11 <= c.y <= n - 9 && 0 <= c.x <= 5))))
  {
    var n := SizeOf(ver);
    RingNear(3, 3, c);
    RingNear(n - 4, 3, c);
    RingNear(3, n - 4, c);
    hide InAlignment, IsFormatCell, Ring;
  }

  predicate InFinders(n: int, x: int, y: int) {
    (-1 <= x <= 7 && -1 <= y <= 7) || (n - 8 <= x <= n && -1 <= y <= 7) || (-1 <= x <= 7 && n - 8 <= y <= n)
  }

  lemma FinderCorners(n: int, x: int, y: int)
    requires 0 <= x < n && 0 <= y < n
    ensures InFinders(n, x, y) <==> (x <= 7 && (y <= 7 || y >= n - 8)) || (x >= n - 8 && y <= 7)
  {}

  lemma AlignmentKindIs(ver: int, x: int, y: int)
    requires IsVersion(ver)
    ensures var n, many, ix, iy := SizeOf(ver), ver >= 2, NearInner(ver, x), NearInner(ver, y);
      AlignmentKind(ver, x, y) ==
        ((ix && (Near(6, y) || iy || (many && Near(n - 7, y)))) || (iy && (Near(6, x) || (many && Near(n - 7, x))))
         || (many && Near(n - 7, x) && Near(n - 7, y)))
  {
    hide NearInner, Near;
  }

  lemma CoveredIs(n: int, many: bool, late: bool, ix: bool, iy: bool, x: int, y: int)
    ensures Covered(n, many, late, ix, iy, x, y) ==
      ((x <= 8 && (y <= 8 || y >= n - 8)) || (x >= n - 8 && y <= 8) || x == 6 || y == 6
       || (late && ((n - 11 <= x <= n - 9 && y <= 5) || (n - 11 <= y <= n - 9 && x <= 5)))
       || (ix && (Near(6, y) || iy || (many && Near(n - 7, y)))) || (iy && (Near(6, x) || (many && Near(n - 7, x))))
       || (many && Near(n - 7, x) && Near(n - 7, y)))
  {
    hide Near;
  }

  /** How often each part of the axis is covered in a row. */
  datatype Parts = Parts(left: int, right: int, timing: int, column: int, version: int, below: int, inner: int,
    first: int, last: int)

  function PartsOf(n: int, many: bool, late: bool, iy: bool, y: int): Parts {
    Parts(One(y <= 8) + One(y >= n - 8),
          One(y <= 8),
          One(y == 6),
          One(9 <= y <= n - 9) - One(iy),
          One(late && y <= 5),
          One(late && n - 11 <= y <= n - 9),
          One(Near(6, y)) - One(y == 6) + One(iy) + One(many && Near(n - 7, y)),
          One(iy),
          One(iy) + One(many && Near(n - 7, y)))
  }

  function Part(m: int, b: bool): int {
    if b then m else 0
  }

  /** What the parts of a row say about one of its cells. */
  function AtCell(p: Parts, n: int, ix: bool, x: int): int {
    Part(p.left, x <= 8) + Part(p.right, x >= n - 8) + Part(p.timing, 9 <= x <= n - 9) + Part(p.column, x == 6)
    + Part(p.version, n - 11 <= x <= n - 9) + Part(p.below, x <= 5) + Part(p.inner, ix) + Part(p.first, Near(6, x))
    + Part(p.last, Near(n - 7, x))
  }

  predicate Coordinate(n: int, late: bool, ix: bool, x: int) {
    21 <= n && 0 <= x < n && (ix ==> late && 9 <= x <= n - 21)
  }

  lemma CoverTop(n: int, many: bool, late: bool, ix: bool, iy: bool, x: int, y: int)
    requires Coordinate(n, late, ix, x) && Coordinate(n, late, iy, y) && (late ==> many) && y <= 8
    ensures One(Covered(n, many, late, ix, iy, x, y)) == AtCell(PartsOf(n, many, late, iy, y), n, ix, x)
  {}

  lemma CoverMiddle(n: int, many: bool, late: bool, ix: bool, iy: bool, x: int, y: int)
    requires Coordinate(n, late, ix, x) && Coordinate(n, late, iy, y) && (late ==> many) && 9 <= y <= n - 12
    ensures One(Covered(n, many, late, ix, iy, x, y)) == AtCell(PartsOf(n, many, late, iy, y), n, ix, x)
  {}

  lemma CoverVersion(n: int, many: bool, late: bool, ix: bool, iy: bool, x: int, y: int)
    requires Coordinate(n, late, ix, x) && Coordinate(n, late, iy, y)
    requires (late ==> many) && n - 11 <= y <= n - 9 && 9 <= y
    ensures One(Covered(n, many, late, ix, iy, x, y)) == AtCell(PartsOf(n, many, late, iy, y), n, ix, x)
  {}

  lemma CoverBottom(n: int, many: bool, late: bool, ix: bool, iy: bool, x: int, y: int)
    requires Coordinate(n, late, ix, x) && Coordinate(n, late, iy, y) && (late ==> many) && n - 8 <= y
    ensures One(Covered(n, many, late, ix, iy, x, y)) == AtCell(PartsOf(n, many, late, iy, y), n, ix, x)
  {}

  function RowParts(ver: int, y: int): Parts
    requires IsVersion(ver)
  {
    PartsOf(SizeOf(ver), ver >= 2, ver >= 7, NearInner(ver, y), y)
  }

  /** The parts of a row cover each of its function modules once and no other module. */
  lemma PartsCover(ver: int, x: int, y: int)
    requires IsVersion(ver) && 0 <= x < SizeOf(ver) && 0 <= y < SizeOf(ver)
    ensures One(IsFunction(ver, Cell(x, y))) == AtCell(RowParts(ver, y), SizeOf(ver), NearInner(ver, x), x)
  {
    FunctionIsCovered(ver, x, y);
    if NearInner(ver, x) {
      InnerRange(ver, x);
    }
    if NearInner(ver, y) {
      InnerRange(ver, y);
    }
    hide NearInner, Covered, PartsOf, AtCell, IsFunction;
    var n, ix, iy := SizeOf(ver), NearInner(ver, x), NearInner(ver, y);
    if y <= 8 {
      CoverTop(n, ver >= 2, ver >= 7, ix, iy, x, y);
    } else if y <= n - 12 {
      CoverMiddle(n, ver >= 2, ver >= 7, ix, iy, x, y);
    } else if y <= n - 9 {
      CoverVersion(n, ver >= 2, ver >= 7, ix, iy, x, y);
    } else {
      CoverBottom(n, ver >= 2, ver >= 7, ix, iy, x, y);
    }
  }

  // ---------- Adding up ----------

  /** The function modules among the first `m` of a row. */
  ghost function RowCount(ver: int, y: int, m: nat): nat
    requires IsVersion(ver)
  {
    if m == 0 then 0 else RowCount(ver, y, m - 1) + One(IsFunction(ver, Cell(m - 1, y)))
  }

  lemma Distribute(a: int, c: int, b: bool)
    ensures a * (c + One(b)) == a * c + Part(a, b)
  {}

  lemma CountStep(ver: int, s: Span, m: nat)
    requires IsVersion(ver)
    ensures CountOn(ver, s, 0) == 0 && CountOn(ver, s, m + 1) == CountOn(ver, s, m) + One(On(ver, s, m))
  {
    hide On;
  }

  /** A part covers its multiple of the coordinates of a span. */
  function Share(ver: int, a: int, s: Span, m: nat): int
    requires IsVersion(ver)
  {
    a * CountOn(ver, s, m)
  }

  lemma ShareStep(ver: int, a: int, s: Span, m: nat)
    requires IsVersion(ver)
    ensures Share(ver, a, s, 0) == 0 && Share(ver, a, s, m + 1) == Share(ver, a, s, m) + Part(a, On(ver, s, m))
  {
    CountStep(ver, s, m);
    Distribute(a, CountOn(ver, s, m), On(ver, s, m));
    hide CountOn, On;
  }

  function RowShares(ver: int, p: Parts, m: nat): int
    requires IsVersion(ver)
  {
    var n := SizeOf(ver);
    Share(ver, p.left, Span(0, 8), m) + Share(ver, p.right, Span(n - 8, n - 1), m)
    + Share(ver, p.timing, Span(9, n - 9), m) + Share(ver, p.column, Span(6, 6), m)
    + Share(ver, p.version, Span(n - 11, n - 9), m) + Share(ver, p.below, Span(0, 5), m)
    + Share(ver, p.inner, Inner, m) + Share(ver, p.first, Span(4, 8), m) + Share(ver, p.last, Span(n - 9, n - 5), m)
  }

  lemma RowSharesStep(ver: int, p: Parts, m: nat)
    requires IsVersion(ver) && m < SizeOf(ver)
    ensures RowShares(ver, p, 0) == 0
    ensures RowShares(ver, p, m + 1) == RowShares(ver, p, m) + AtCell(p, SizeOf(ver), NearInner(ver, m), m)
  {
    hide *;
    var n := SizeOf(ver);
    RowSharesIs(ver, p, 0);
    RowSharesIs(ver, p, m);
    RowSharesIs(ver, p, m + 1);
    AtCellOn(ver, p, m);
    ShareStep(ver, p.left, Span(0, 8), m);
    ShareStep(ver, p.right, Span(n - 8, n - 1), m);
    ShareStep(ver, p.timing, Span(9, n - 9), m);
    ShareStep(ver, p.column, Span(6, 6), m);
    ShareStep(ver, p.version, Span(n - 11, n - 9), m);
    ShareStep(ver, p.below, Span(0, 5), m);
    ShareStep(ver, p.inner, Inner, m);
    ShareStep(ver, p.first, Span(4, 8), m);
    ShareStep(ver, p.last, Span(n - 9, n - 5), m);
  }

  lemma RowSharesIs(ver: int, p: Parts, m: nat)
    requires IsVersion(ver)
    ensures var n := SizeOf(ver);
      RowShares(ver, p, m) ==
        Share(ver, p.left, Span(0, 8), m) + Share(ver, p.right, Span(n - 8, n - 1), m)
        + Share(ver, p.timing, Span(9, n - 9), m) + Share(ver, p.column, Span(6, 6), m)
        + Share(ver, p.version, Span(n - 11, n - 9), m) + Share(ver, p.below, Span(0, 5), m)
        + Share(ver, p.inner, Inner, m) + Share(ver, p.first, Span(4, 8), m) + Share(ver, p.last, Span(n - 9, n - 5), m)
  {
    hide Share, SizeOf;
  }

  lemma AtCellOn(ver: int, p: Parts, x: nat)
    requires IsVersion(ver) && x < SizeOf(ver)
    ensures var n := SizeOf(ver);
      AtCell(p, n, NearInner(ver, x), x) ==
        Part(p.left, On(ver, Span(0, 8), x)) + Part(p.right, On(ver, Span(n - 8, n - 1), x))
        + Part(p.timing, On(ver, Span(9, n - 9), x)) + Part(p.column, On(ver, Span(6, 6), x))
        + Part(p.version, On(ver, Span(n - 11, n - 9), x)) + Part(p.below, On(ver, Span(0, 5), x))
        + Part(p.inner, On(ver, Inner, x)) + Part(p.first, On(ver, Span(4, 8), x))
        + Part(p.last, On(ver, Span(n - 9, n - 5), x))
  {
    hide NearInner, Part;
  }

  lemma {:induction false} RowCountIs(ver: int, y: int, m: nat)
    requires IsVersion(ver) && 0 <= y < SizeOf(ver) && m <= SizeOf(ver)
    ensures RowCount(ver, y, m) == RowShares(ver, RowParts(ver, y), m)
  {
    hide IsFunction, RowParts, AtCell, RowShares;
    RowSharesStep(ver, RowParts(ver, y), if m == 0 then 0 else m - 1);
    if m > 0 {
      RowCountIs(ver, y, m - 1);
      PartsCover(ver, m - 1, y);
    }
  }

  /** The function modules of a whole row. */
  function RowTotal(ver: int, p: Parts): int
    requires IsVersion(ver)
  {
    9 * p.left + 8 * p.right + p.timing * (SizeOf(ver) - 17) + p.column + 3 * p.version + 6 * p.below
    + p.inner * (5 * NumInner(ver)) + 5 * p.first + 5 * p.last
  }

  lemma WholeRow(ver: int, p: Parts)
    requires IsVersion(ver)
    ensures RowShares(ver, p, SizeOf(ver)) == RowTotal(ver, p)
  {
    var n := SizeOf(ver);
    CountSpan(ver, 0, 8, n);
    CountSpan(ver, n - 8, n - 1, n);
    CountSpan(ver, 9, n - 9, n);
    CountSpan(ver, 6, 6, n);
    CountSpan(ver, n - 11, n - 9, n);
    CountSpan(ver, 0, 5, n);
    CountSpan(ver, 4, 8, n);
    CountSpan(ver, n - 9, n - 5, n);
    CountInner(ver);
    hide CountOn, NumInner;
  }

  /** The function modules among the first `m` rows. */
  ghost function Total(ver: int, m: nat): nat
    requires IsVersion(ver)
  {
    if m == 0 then 0 else Total(ver, m - 1) + RowCount(ver, m - 1, SizeOf(ver))
  }

  /** The columns are covered like a row with these parts. */
  function ColumnParts(ver: int): Parts
    requires IsVersion(ver)
  {
    var w := 5 * NumInner(ver);
    var v := if ver >= 7 then 3 else 0;
    Parts(17, 9, 1, SizeOf(ver) - 17 - w, 2 * v, v, w + 9, w, if ver >= 2 then w + 5 else 0)
  }

  lemma ShareOut(w: int, a: bool, b: bool, c: bool, d: bool)
    ensures (One(a) - One(b) + One(c) + One(d)) * w == Part(w, a) - Part(w, b) + Part(w, c) + Part(w, d)
  {
    assert (One(a) - One(b) + One(c) + One(d)) * w == One(a) * w - One(b) * w + One(c) * w + One(d) * w;
  }

  lemma OneTimes(w: int, a: bool)
    ensures One(a) * w == Part(w, a)
  {}

  lemma RowTotalIs(ver: int, y: int)
    requires IsVersion(ver) && 0 <= y < SizeOf(ver)
    ensures RowTotal(ver, RowParts(ver, y)) == AtCell(ColumnParts(ver), SizeOf(ver), NearInner(ver, y), y)
  {
    var n, w, p, iy := SizeOf(ver), 5 * NumInner(ver), RowParts(ver, y), NearInner(ver, y);
    assert p == PartsOf(n, ver >= 2, ver >= 7, iy, y) && 21 <= n;
    RowTotalMeans(ver, p);
    ColumnPartsAre(ver);
    hide *;
    Products(n, w, ver >= 2, ver >= 7, iy, y);
    RowTotalAt(n, w, ver >= 2, ver >= 7, iy, y, p.timing * (n - 17), p.inner * w);
  }

  lemma RowTotalMeans(ver: int, p: Parts)
    requires IsVersion(ver)
    ensures RowTotal(ver, p) ==
      9 * p.left + 8 * p.right + p.timing * (SizeOf(ver) - 17) + p.column + 3 * p.version + 6 * p.below
      + p.inner * (5 * NumInner(ver)) + 5 * p.first + 5 * p.last
  {}

  lemma ColumnPartsAre(ver: int)
    requires IsVersion(ver)
    ensures var w, v := 5 * NumInner(ver), if ver >= 7 then 3 else 0;
      ColumnParts(ver) == Parts(17, 9, 1, SizeOf(ver) - 17 - w, 2 * v, v, w + 9, w, if ver >= 2 then w + 5 else 0)
  {
    hide NumInner, SizeOf;
  }

  lemma Products(n: int, w: int, many: bool, late: bool, iy: bool, y: int)
    ensures var p := PartsOf(n, many, late, iy, y);
      && p.timing * (n - 17) == Part(n - 17, y == 6)
      && p.inner * w == Part(w, Near(6, y)) - Part(w, y == 6) + Part(w, iy) + Part(w, many && Near(n - 7, y))
  {
    ShareOut(w, Near(6, y), y == 6, iy, many && Near(n - 7, y));
    OneTimes(n - 17, y == 6);
    hide One, Part, Near;
  }

  lemma RowTotalAt(n: int, w: nat, many: bool, late: bool, iy: bool, y: int, timing: int, inner: int)
    requires 21 <= n && 0 <= y < n && timing == Part(n - 17, y == 6)
    requires inner == Part(w, Near(6, y)) - Part(w, y == 6) + Part(w, iy) + Part(w, many && Near(n - 7, y))
    ensures var p, v := PartsOf(n, many, late, iy, y), if late then 3 else 0;
      9 * p.left + 8 * p.right + timing + p.column + 3 * p.version + 6 * p.below + inner + 5 * p.first + 5 * p.last
      == AtCell(Parts(17, 9, 1, n - 17 - w, 2 * v, v, w + 9, w, if many then w + 5 else 0), n, iy, y)
  {
    if y <= 8 {
    } else if y <= n - 12 {
    } else if y <= n - 9 {
    } else {
    }
  }

  lemma {:induction false} TotalIs(ver: int, m: nat)
    requires IsVersion(ver) && m <= SizeOf(ver)
    ensures Total(ver, m) == RowShares(ver, ColumnParts(ver), m)
  {
    hide RowCount, RowShares, RowParts, ColumnParts, RowTotal, AtCell;
    RowSharesStep(ver, ColumnParts(ver), if m == 0 then 0 else m - 1);
    if m > 0 {
      TotalIs(ver, m - 1);
      RowCountIs(ver, m - 1, SizeOf(ver));
      WholeRow(ver, RowParts(ver, m - 1));
      RowTotalIs(ver, m - 1);
    }
  }

  lemma AlignmentArea(ver: int, k: nat)
    requires IsVersion(ver) && ver >= 2 && k == NumInner(ver)
    ensures (5 * k + 9) * (5 * k) - 5 * k + 25 * k + 5 * (5 * k + 5) == (25 * NumAlign(ver) - 10) * NumAlign(ver) - 55
  {
    assert NumAlign(ver) == k + 2;
    hide *;
    assert (5 * k + 9) * (5 * k) == 25 * (k * k) + 45 * k;
    assert (25 * (k + 2) - 10) * (k + 2) == 25 * (k * k) + 90 * k + 80;
  }

  lemma ColumnTotal(ver: int, k: nat)
    requires IsVersion(ver) && k == NumInner(ver)
    ensures RowTotal(ver, ColumnParts(ver)) == 225 + 2 * (SizeOf(ver) - 17) + (if ver >= 7 then 36 else 0)
      + (if ver >= 2 then (5 * k + 9) * (5 * k) - 5 * k + 25 * k + 5 * (5 * k + 5) else 0)
  {
    hide NumAlign;
  }

  lemma RawModules(ver: int)
    requires IsVersion(ver)
    ensures NumRawDataModules(ver) == (16 * ver + 128) * ver + 64 - (if ver >= 7 then 36 else 0)
      - (if ver >= 2 then (25 * NumAlign(ver) - 10) * NumAlign(ver) - 55 else 0)
  {}

  /** The function patterns of every version leave exactly the number of modules free that the formula gives. */
  lemma FreeModules(ver: int)
    requires IsVersion(ver)
    ensures SizeOf(ver) * SizeOf(ver) - Total(ver, SizeOf(ver)) == NumRawDataModules(ver)
  {
    hide *;
    TotalIs(ver, SizeOf(ver));
    WholeRow(ver, ColumnParts(ver));
    ColumnTotal(ver, NumInner(ver));
    RawModules(ver);
    Area(ver);
    if ver >= 2 {
      AlignmentArea(ver, NumInner(ver));
    }
  }

  lemma Area(ver: int)
    requires IsVersion(ver)
    ensures SizeOf(ver) * SizeOf(ver) == (16 * ver + 128) * ver + 64 + 225 + 2 * (SizeOf(ver) - 17)
  {
    hide NumAlign;
    assert (ver * 4 + 17) * (ver * 4 + 17) == 16 * (ver * ver) + 136 * ver + 289;
    assert (16 * ver + 128) * ver == 16 * (ver * ver) + 128 * ver;
  }

  // ---------- The free modules in scan order ----------

  ghost function FreeInRow(ver: int, y: int, m: nat): set<Cell>
    requires IsVersion(ver)
  {
    if m == 0 then {} else FreeInRow(ver, y, m - 1) + (if IsFunction(ver, Cell(m - 1, y)) then {} else {Cell(m - 1, y)})
  }

  lemma {:induction false} FreeInRowIs(ver: int, y: int, m: nat)
    requires IsVersion(ver)
    ensures forall c :: c in FreeInRow(ver, y, m) <==> c.y == y && 0 <= c.x < m && !IsFunction(ver, c)
    ensures |FreeInRow(ver, y, m)| + RowCount(ver, y, m) == m
  {
    hide *;
    InRowUnfold(ver, y, if m == 0 then 0 else m - 1);
    if m > 0 {
      FreeInRowIs(ver, y, m - 1);
      AddCell(FreeInRow(ver, y, m - 1), Cell(m - 1, y));
    }
  }

  lemma AddCell(a: set<Cell>, c: Cell)
    requires c !in a
    ensures |a + {c}| == |a| + 1
  {}

  lemma InRowUnfold(ver: int, y: int, m: nat)
    requires IsVersion(ver)
    ensures FreeInRow(ver, y, 0) == {} && RowCount(ver, y, 0) == 0
    ensures IsFunction(ver, Cell(m, y)) ==>
      FreeInRow(ver, y, m + 1) == FreeInRow(ver, y, m) && RowCount(ver, y, m + 1) == RowCount(ver, y, m) + 1
    ensures !IsFunction(ver, Cell(m, y)) ==>
      FreeInRow(ver, y, m + 1) == FreeInRow(ver, y, m) + {Cell(m, y)} && RowCount(ver, y, m + 1) == RowCount(ver, y, m)
  {
    hide IsFunction;
  }

  ghost function FreeInRows(ver: int, m: nat): set<Cell>
    requires IsVersion(ver)
  {
    if m == 0 then {} else FreeInRows(ver, m - 1) + FreeInRow(ver, m - 1, SizeOf(ver))
  }

  lemma {:induction false} FreeInRowsIs(ver: int, m: nat)
    requires IsVersion(ver)
    ensures forall c :: c in FreeInRows(ver, m) <==> 0 <= c.y < m && 0 <= c.x < SizeOf(ver) && !IsFunction(ver, c)
    ensures |FreeInRows(ver, m)| + Total(ver, m) == m * SizeOf(ver)
  {
    hide *;
    RowsUnfold(ver, if m == 0 then 0 else m - 1);
    if m > 0 {
      FreeInRowsIs(ver, m - 1);
      FreeInRowIs(ver, m - 1, SizeOf(ver));
      DisjointSize(FreeInRows(ver, m - 1), FreeInRow(ver, m - 1, SizeOf(ver)));
      OneMoreRow(m, SizeOf(ver));
    }
  }

  lemma OneMoreRow(m: nat, n: nat)
    ensures m * n == (m - 1) * n + n
  {}

  lemma RowsUnfold(ver: int, m: nat)
    requires IsVersion(ver)
    ensures FreeInRows(ver, 0) == {} && Total(ver, 0) == 0
    ensures FreeInRows(ver, m + 1) == FreeInRows(ver, m) + FreeInRow(ver, m, SizeOf(ver))
    ensures Total(ver, m + 1) == Total(ver, m) + RowCount(ver, m, SizeOf(ver))
  {
    hide SizeOf, FreeInRow, RowCount;
  }

  lemma DisjointSize(a: set<Cell>, b: set<Cell>)
    requires a !! b
    ensures |a + b| == |a| + |b|
  {}

  lemma {:induction false} DistinctSize(s: seq<Cell>, a: set<Cell>)
    requires Distinct(s) && forall c :: c in a <==> c in s
    ensures |a| == |s|
  {
    if s == [] {
      assert a == {};
    } else {
      var init, last := s[..|s| - 1], s[|s| - 1];
      assert s == init + [last] && last !in init;
      DistinctSize(init, a - {last});
    }
  }

  /** The marks of a symbol's function modules. */
  ghost predicate MarksFunctions(ver: int, functions: seq<seq<bool>>)
    requires IsVersion(ver)
  {
    |functions| == SizeOf(ver) && Penalty.Square(functions)
    && forall c: Cell :: InGrid(functions, c) ==> (At(functions, c) <==> IsFunction(ver, c))
  }

  /** The zigzag scan of every version finds exactly as many free modules as the formula gives. */
  lemma FreeScanLength(ver: int, functions: seq<seq<bool>>)
    requires IsVersion(ver) && MarksFunctions(ver, functions)
    ensures |FreeScan(functions)| == NumRawDataModules(ver)
  {
    var n, free := SizeOf(ver), FreeScan(functions);
    ScanExact(n);
    FreeCellsExact(Scan(n), functions);
    FreeInRowsIs(ver, n);
    FreeModules(ver);
    hide Scan, FreeCells, FreeInRows, Total, NumRawDataModules;
    forall c
      ensures c in FreeInRows(ver, n) <==> c in free
    {
      SixthIsFunction(ver, c);
      hide IsFunction;
      assert InGrid(functions, c) <==> 0 <= c.x < n && 0 <= c.y < n;
    }
    DistinctSize(free, FreeInRows(ver, n));
  }

  lemma SixthIsFunction(ver: int, c: Cell)
    requires IsVersion(ver)
    ensures c.x == 6 ==> IsFunction(ver, c)
  {}

  /** What drawing marks are exactly the function modules, and format cells are among them. */
  lemma DrawnMarks(ver: int)
    requires IsVersion(ver)
    ensures MarksFunctions(ver, FunctionMarks(ver)) && FormatReserved(FunctionMarks(ver))
  {
    hide FunctionMarks, IsFunction;
    forall c: Cell | InGrid(FunctionMarks(ver), c)
      ensures At(FunctionMarks(ver), c) <==> IsFunction(ver, c)
      ensures IsFormatCell(SizeOf(ver), c) ==> At(FunctionMarks(ver), c)
    {
      MarksAreFunctions(ver, c);
      FormatIsFunction(ver, c);
    }
  }

  lemma FormatIsFunction(ver: int, c: Cell)
    requires IsVersion(ver)
    ensures IsFormatCell(SizeOf(ver), c) ==> IsFunction(ver, c)
  {}

  /** The drawn function patterns of every version leave exactly as many modules to the scan as the formula gives. */
  lemma RoomForCodewords(ver: int)
    requires IsVersion(ver)
    ensures |FreeScan(FunctionMarks(ver))| == NumRawDataModules(ver) >= 8 * RawCodewords(ver)
  {
    DrawnMarks(ver);
    FreeScanLength(ver, FunctionMarks(ver));
    RawModulesRange(ver);
    hide FreeScan, FunctionMarks, NumRawDataModules;
  }
}
