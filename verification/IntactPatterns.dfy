/** The function patterns do not disturb one another: each of them is there in the drawn symbol. */
module IntactPatterns {
  import opened Common
  import opened QrTables
  import opened ZigzagScan
  import opened Penalty
  import opened QrGrid
  import opened FunctionPatterns

  /** From number `k` on, every pattern that covers the cell shows the same there. */
  ghost predicate Agreed(ps: seq<Pattern>, k: nat, size: int, c: Cell, v: bool) {
    forall j :: k <= j < |ps| && Covers(ps[j], size, c) ==> ShowsDark(ps[j], size, c) == v
  }

  lemma {:induction false} ShownWhenAgreed(g: Grid, ps: seq<Pattern>, k: nat, c: Cell, v: bool)
    requires Square(g) && InGrid(g, c) && k < |ps| && Covers(ps[k], |g|, c) && Agreed(ps, k, |g|, c, v)
    ensures At(PaintedAll(g, ps, false), c) == v
  {
    hide Covers, ShowsDark, Painted, At;
    var n := |ps| - 1;
    PaintedAt(PaintedAll(g, ps[..n], false), ps[n], false);
    if !Covers(ps[n], |g|, c) {
      ShownWhenAgreed(g, ps[..n], k, c, v);
    }
  }

  // ---------- Which alignment patterns there are ----------

  ghost predicate IsAlignment(ver: int, p: Pattern, i: nat, j: nat)
    requires IsVersion(ver) && ver >= 2
  {
    && i < NumAlign(ver) && j < NumAlign(ver) && !IsCorner(ver, i, j)
    && p == Alignment(AlignPosition(ver, i), AlignPosition(ver, j))
  }

  lemma {:induction false} InColumnAre(ver: int, i: nat, m: nat, p: Pattern)
    requires IsVersion(ver) && ver >= 2 && i < NumAlign(ver) && m <= NumAlign(ver) && p in AlignmentsIn(ver, i, m)
    ensures exists j: nat :: IsAlignment(ver, p, i, j)
  {
    hide AlignPosition, NumAlign, IsCorner;
    if m > 0 {
      if p in AlignmentsIn(ver, i, m - 1) {
        InColumnAre(ver, i, m - 1, p);
      } else {
        assert IsAlignment(ver, p, i, m - 1);
      }
    }
  }

  lemma {:induction false} AlignmentsAre(ver: int, m: nat, p: Pattern)
    requires IsVersion(ver) && ver >= 2 && m <= NumAlign(ver) && p in Alignments(ver, m)
    ensures exists i: nat, j: nat :: IsAlignment(ver, p, i, j)
  {
    hide AlignmentsIn, IsAlignment, NumAlign;
    if m > 0 {
      if p in Alignments(ver, m - 1) {
        AlignmentsAre(ver, m - 1, p);
      } else {
        InColumnAre(ver, m - 1, NumAlign(ver), p);
      }
    }
  }

  // ---------- Where they are ----------

  /** An alignment position is 6, the last one, or one in between that stays clear of both ends; all are even. */
  lemma PositionPlaces(ver: int, i: nat)
    requires IsVersion(ver) && ver >= 2 && i < NumAlign(ver)
    ensures var p, n := AlignPosition(ver, i), SizeOf(ver);
      && p % 2 == 0 && n >= 25
      && (i == 0 ==> p == 6) && (i == NumAlign(ver) - 1 ==> p == n - 7)
      && (0 < i < NumAlign(ver) - 1 ==> 12 < p < n - 13)
  {
    AlignFacts(ver);
    PositionEven(ver, i);
    hide *;
    SizeIs(ver);
    AlignmentsApart(ver, 0);
    if 0 < i < NumAlign(ver) - 1 {
      AlignmentsApart(ver, i);
    }
  }

  lemma StepEven(ver: int)
    requires IsVersion(ver) && ver >= 2
    ensures AlignStep(ver) % 2 == 0
  {}

  lemma EvenTimes(s: int, d: int)
    requires s % 2 == 0
    ensures s * d % 2 == 0
  {
    assert s * d == 2 * (s / 2 * d);
  }

  lemma SizeOdd(ver: int)
    requires IsVersion(ver)
    ensures SizeOf(ver) % 2 == 1
  {}

  lemma PositionEven(ver: int, i: nat)
    requires IsVersion(ver) && ver >= 2
    ensures AlignPosition(ver, i) % 2 == 0
  {
    StepEven(ver);
    EvenTimes(AlignStep(ver), NumAlign(ver) - 1 - i);
    SizeOdd(ver);
    hide *;
    PositionIs(ver, i);
  }

  lemma {:induction false} PositionsApart(ver: int, i: nat, j: nat)
    requires IsVersion(ver) && ver >= 2 && i < j < NumAlign(ver)
    ensures AlignPosition(ver, i) + 12 <= AlignPosition(ver, j)
  {
    hide *;
    AlignmentsApart(ver, j - 1);
    if i < j - 1 {
      PositionsApart(ver, i, j - 1);
    }
  }

  /** What an alignment pattern keeps away from. */
  lemma AlignmentClear(ver: int, i: nat, j: nat, c: Cell)
    requires IsVersion(ver) && ver >= 2 && AlignedAt(ver, c, i, j)
    ensures var n := SizeOf(ver);
      && !Covers(Finder(3, 3), n, c) && !Covers(Finder(n - 4, 3), n, c) && !Covers(Finder(3, n - 4), n, c)
      && !IsFormatCell(n, c) && !Covers(VersionInfo(ver), n, c)
  {
    PositionPlaces(ver, i);
    PositionPlaces(ver, j);
    hide AlignPosition, NumAlign, SizeOf;
  }

  lemma CrossesTiming(px: int, py: int, size: int, c: Cell)
    requires px % 2 == 0 && py % 2 == 0 && Near(px, c.x) && Near(py, c.y)
    requires (c.x == 6 && px == 6) || (c.x != 6 && c.y == 6 && py == 6)
    ensures ShowsDark(Alignment(px, py), size, c) == ShowsDark(Timing, size, c)
  {
    var d := if c.x == 6 then c.y - py else c.x - px;
    assert Ring(px, py, c) == Abs(d);
    assert d == -2 || d == -1 || d == 0 || d == 1 || d == 2;
  }

  /** Where an alignment pattern lies across a timing line, the two agree. */
  lemma AlignmentOnTiming(ver: int, i: nat, j: nat, c: Cell)
    requires IsVersion(ver) && ver >= 2 && AlignedAt(ver, c, i, j) && Covers(Timing, SizeOf(ver), c)
    ensures ShowsDark(Alignment(AlignPosition(ver, i), AlignPosition(ver, j)), SizeOf(ver), c)
            == ShowsDark(Timing, SizeOf(ver), c)
  {
    PositionPlaces(ver, i);
    PositionPlaces(ver, j);
    hide AlignPosition, NumAlign, SizeOf, ShowsDark;
    CrossesTiming(AlignPosition(ver, i), AlignPosition(ver, j), SizeOf(ver), c);
  }

  lemma AlignmentCovers(ver: int, p: Pattern, i: nat, j: nat, size: int, c: Cell)
    requires IsVersion(ver) && ver >= 2 && IsAlignment(ver, p, i, j)
    ensures Covers(p, size, c) <==> AlignedAt(ver, c, i, j)
  {
    RingNear(AlignPosition(ver, i), AlignPosition(ver, j), c);
    hide AlignPosition, NumAlign, IsCorner, Near, Ring;
  }

  lemma SameAlignment(ver: int, i: nat, j: nat, i': nat, j': nat, c: Cell)
    requires IsVersion(ver) && ver >= 2 && AlignedAt(ver, c, i, j) && AlignedAt(ver, c, i', j')
    ensures i == i' && j == j'
  {
    hide AlignPosition, NumAlign, IsCorner;
    if i < i' { PositionsApart(ver, i, i'); }
    if i' < i { PositionsApart(ver, i', i); }
    if j < j' { PositionsApart(ver, j, j'); }
    if j' < j { PositionsApart(ver, j', j); }
  }

  // ---------- Agreement ----------

  predicate InFinder(size: int, c: Cell) {
    Covers(Finder(3, 3), size, c) || Covers(Finder(size - 4, 3), size, c) || Covers(Finder(3, size - 4), size, c)
  }

  lemma FirstFour(ver: int, k: nat)
    requires IsVersion(ver) && k < |FirstPatterns(ver)|
    ensures var p, n := FirstPatterns(ver)[k], SizeOf(ver);
      && (k == 0 ==> p == Timing) && (k == 1 ==> p == Finder(3, 3)) && (k == 2 ==> p == Finder(n - 4, 3))
      && (k == 3 ==> p == Finder(3, n - 4))
      && (k >= 4 ==> ver >= 2 && p in Alignments(ver, NumAlign(ver)))
  {
    hide Alignments, SizeOf, NumAlign;
  }

  lemma FindersApart(size: int, c: Cell)
    requires size >= 21
    ensures !(Covers(Finder(3, 3), size, c) && 0 <= c.x && 0 <= c.y && Covers(Finder(size - 4, 3), size, c))
    ensures !(Covers(Finder(3, 3), size, c) && Covers(Finder(3, size - 4), size, c))
    ensures !(Covers(Finder(size - 4, 3), size, c) && Covers(Finder(3, size - 4), size, c))
  {}

  /** Two patterns that cover a cell show the same there, the later one of a finder pattern on a timing line aside. */
  lemma PairAgrees(ver: int, k: nat, j: nat, c: Cell)
    requires IsVersion(ver) && k <= j < |FirstPatterns(ver)|
    requires Covers(FirstPatterns(ver)[k], SizeOf(ver), c) && Covers(FirstPatterns(ver)[j], SizeOf(ver), c)
    requires k == 0 ==> !InFinder(SizeOf(ver), c)
    ensures ShowsDark(FirstPatterns(ver)[j], SizeOf(ver), c) == ShowsDark(FirstPatterns(ver)[k], SizeOf(ver), c)
  {
    var p, q, n := FirstPatterns(ver)[k], FirstPatterns(ver)[j], SizeOf(ver);
    FirstFour(ver, k);
    FirstFour(ver, j);
    FindersApart(n, c);
    hide FirstPatterns, SizeOf, Covers, ShowsDark, NumAlign, Alignments, AlignPosition, IsFormatCell;
    if j >= 4 {
      AlignmentsAre(ver, NumAlign(ver), q);
      var i', j' :| IsAlignment(ver, q, i', j');
      AlignmentCovers(ver, q, i', j', n, c);
      AlignmentClear(ver, i', j', c);
      if k == 0 {
        AlignmentOnTiming(ver, i', j', c);
      } else if k >= 4 {
        AlignmentsAre(ver, NumAlign(ver), p);
        var i, l :| IsAlignment(ver, p, i, l);
        AlignmentCovers(ver, p, i, l, n, c);
        SameAlignment(ver, i, l, i', j', c);
      }
    }
  }

  /** Nothing that is drawn later covers these patterns. */
  lemma NotLater(ver: int, k: nat, c: Cell)
    requires IsVersion(ver) && k < |FirstPatterns(ver)| && Covers(FirstPatterns(ver)[k], SizeOf(ver), c)
    requires 0 <= c.x < SizeOf(ver) && 0 <= c.y < SizeOf(ver)
    ensures !IsFormatCell(SizeOf(ver), c) && !Covers(VersionInfo(ver), SizeOf(ver), c)
  {
    var p := FirstPatterns(ver)[k];
    FirstFour(ver, k);
    hide FirstPatterns, SizeOf, NumAlign, Alignments, AlignPosition;
    if k >= 4 {
      hide Covers, IsFormatCell;
      AlignmentsAre(ver, NumAlign(ver), p);
      var i, j :| IsAlignment(ver, p, i, j);
      AlignmentCovers(ver, p, i, j, SizeOf(ver), c);
      AlignmentClear(ver, i, j, c);
    }
  }

  /** In the drawn symbol every module of a finder or alignment pattern, and every module of the timing lines outside
      the finder patterns, is as its pattern has it. */
  lemma PatternsIntact(ver: int, ecl: Ecc, k: nat, c: Cell)
    requires IsVersion(ver) && 0 <= c.x < SizeOf(ver) && 0 <= c.y < SizeOf(ver)
    requires k < |FirstPatterns(ver)| && Covers(FirstPatterns(ver)[k], SizeOf(ver), c)
    requires k == 0 ==> !InFinder(SizeOf(ver), c)
    ensures At(PatternGrid(ver, ecl), c) == ShowsDark(FirstPatterns(ver)[k], SizeOf(ver), c)
  {
    var n, ps := SizeOf(ver), FirstPatterns(ver);
    var first := PaintedAll(Blank(n), ps, false);
    var bits := FormatBits(FormatWord(ecl, 0));
    hide *;
    hide Covers, ShowsDark, FirstPatterns, SizeOf, At;
    forall j | k <= j < |ps| && Covers(ps[j], n, c)
      ensures ShowsDark(ps[j], n, c) == ShowsDark(ps[k], n, c)
    {
      PairAgrees(ver, k, j, c);
    }
    ShownWhenAgreed(Blank(n), ps, k, c, ShowsDark(ps[k], n, c));
    NotLater(ver, k, c);
    WithFormatAt(first, bits);
    PaintedAt(WithFormat(first, bits), VersionInfo(ver), false);
  }
}
