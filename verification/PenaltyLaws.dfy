/** What the parts of the penalty score count, in terms of the modules. */
module PenaltyLaws {
  import opened Common
  import opened Penalty

  // ---------- Runs ----------

  ghost predicate Positive(r: seq<nat>) {
    forall k :: 0 <= k < |r| ==> r[k] > 0
  }

  lemma {:induction false} RunsMore(t: seq<bool>, c: bool, n: nat)
    requires n > 0 && (t == [] || t[|t| - 1] != c)
    ensures Runs(t + Repeat(c, n)) == Runs(t) + [n]
  {
    hide Runs;
    var u := t + Repeat(c, n - 1);
    assert t + Repeat(c, n) == u + [c];
    RunsSnoc(u, c);
    if n == 1 {
      assert u == t;
    } else {
      RunsMore(t, c, n - 1);
      assert Init(Runs(u)) == Runs(t);
    }
  }

  /** Runs are maximal: positive lengths are the runs of the modules they make up. */
  lemma {:induction false} RunsOfExpand(r: seq<nat>, last: bool)
    requires Positive(r)
    ensures Runs(Expand(r, last)) == r
    ensures r != [] ==> Expand(r, last) != [] && Expand(r, last)[|Expand(r, last)| - 1] == last
  {
    hide Runs;
    if r == [] {
      assert Expand(r, last) == [];
    } else {
      RunsOfExpand(Init(r), !last);
      RunsMore(Expand(Init(r), !last), last, Last(r));
      assert r == Init(r) + [Last(r)];
    }
  }

  ghost predicate EndsIn(s: seq<bool>, n: nat, c: bool) {
    n <= |s| && forall k :: |s| - n <= k < |s| ==> s[k] == c
  }

  lemma {:induction false} LastRun(s: seq<bool>, n: nat)
    requires s != [] && n > 0
    ensures Last(Runs(s)) >= n <==> EndsIn(s, n, s[|s| - 1])
  {
    hide Runs;
    var m := |s| - 1;
    var t, c := s[..m], s[m];
    assert s == t + [c];
    RunsSnoc(t, c);
    if m > 0 && c == t[m - 1] && n > 1 {
      LastRun(t, n - 1);
      if EndsIn(s, n, c) {
        assert forall k :: m - (n - 1) <= k < m ==> t[k] == s[k];
      }
      if EndsIn(t, n - 1, c) {
        assert forall k :: m + 1 - n <= k < m ==> s[k] == t[k];
      }
    } else if n > 1 && m > 0 {
      assert s[m - 1] != c;
    }
  }

  /** The score of runs module by module: the fifth of equal modules costs 3, and each further one costs 1. */
  lemma RunPenaltyStep(s: seq<bool>, c: bool)
    ensures RunPenalty(Runs([])) == 0
    ensures RunPenalty(Runs(s + [c])) ==
      RunPenalty(Runs(s)) + if !EndsIn(s + [c], 5, c) then 0 else if !EndsIn(s + [c], 6, c) then 3 else 1
  {
    var t := s + [c];
    RunsSnoc(s, c);
    LastRun(t, 5);
    LastRun(t, 6);
    hide Runs, EndsIn;
    var r := Runs(s);
    if s != [] && c == s[|s| - 1] {
      assert r == Init(r) + [Last(r)];
      RunPenaltySnoc(Init(r), Last(r));
      RunPenaltySnoc(Init(r), Last(r) + 1);
    } else {
      RunPenaltySnoc(r, 1);
    }
  }

  // ---------- Finder-like patterns ----------

  /** A finder pattern's profile: n dark, n light, 3n dark, n light and n dark modules between light ones. */
  function FinderLine(before: nat, n: nat, after: nat): seq<bool> {
    Repeat(false, before) + Repeat(true, n) + Repeat(false, n) + Repeat(true, 3 * n) + Repeat(false, n)
    + Repeat(true, n) + Repeat(false, after)
  }

  ghost predicate LooksLikeFinder(s: seq<bool>, near: nat, far: nat) {
    exists n: nat, before: nat, after: nat ::
      n > 0 && before >= near * n && after >= far * n && s == FinderLine(before, n, after)
  }

  lemma FinderLineExpands(before: nat, n: nat, after: nat)
    ensures Expand([before, n, n, 3 * n, n, n, after], false) == FinderLine(before, n, after)
  {
    hide Expand;
    var r := [before];
    ExpandEmpty(true);
    ExpandSnoc([], before, false);
    ExpandSnoc([before], n, true);
    ExpandSnoc([before, n], n, false);
    ExpandSnoc([before, n, n], 3 * n, true);
    ExpandSnoc([before, n, n, 3 * n], n, false);
    ExpandSnoc([before, n, n, 3 * n, n], n, true);
    ExpandSnoc([before, n, n, 3 * n, n, n], after, false);
    assert [] + [before] == [before] && [before] + [n] == [before, n] && [before, n] + [n] == [before, n, n];
    assert [before, n, n] + [3 * n] == [before, n, n, 3 * n] && [before, n, n, 3 * n] + [n] == [before, n, n, 3 * n, n];
    assert [before, n, n, 3 * n, n] + [n] == [before, n, n, 3 * n, n, n];
    assert [before, n, n, 3 * n, n, n] + [after] == [before, n, n, 3 * n, n, n, after];
    assert [] + Repeat(false, before) == Repeat(false, before);
  }

  lemma FinderLineRuns(before: nat, n: nat, after: nat)
    requires before > 0 && n > 0 && after > 0
    ensures Runs(FinderLine(before, n, after)) == [before, n, n, 3 * n, n, n, after]
  {
    FinderLineExpands(before, n, after);
    var r := [before, n, n, 3 * n, n, n, after];
    hide *;
    AllPositive(before, n, after);
    RunsOfExpand(r, false);
  }

  lemma AllPositive(before: nat, n: nat, after: nat)
    requires before > 0 && n > 0 && after > 0
    ensures Positive([before, n, n, 3 * n, n, n, after])
  {}

  lemma SidesOfRuns(before: nat, n: nat, after: nat)
    requires n > 0
    ensures FinderSides([before, n, n, 3 * n, n, n, after]) ==
      (if before >= 4 * n && after >= n then 1 else 0) + (if after >= 4 * n && before >= n then 1 else 0)
  {}

  lemma SidesProfile(w: seq<nat>)
    requires |w| == 7 && FinderSides(w) > 0
    ensures w[1] > 0 && w == [w[0], w[1], w[1], 3 * w[1], w[1], w[1], w[6]]
  {}

  lemma SameProfile(w: seq<nat>, before: nat, n: nat, after: nat)
    requires w == [before, n, n, 3 * n, n, n, after]
    ensures |w| == 7 && w[0] == before && w[1] == n && w[6] == after
  {}

  /** A side is seen in seven runs of modules exactly if they are a finder pattern's profile with at least four times
      its unit of light modules on this side and at least the unit on the other. */
  lemma SidesSeen(s: seq<bool>)
    requires |Runs(s)| == 7 && s[|s| - 1] == false
    ensures FinderSides(Runs(s)) ==
      (if LooksLikeFinder(s, 4, 1) then 1 else 0) + (if LooksLikeFinder(s, 1, 4) then 1 else 0)
  {
    var w := Runs(s);
    RunsExpand(s);
    hide Runs, Expand, FinderLine, FinderSides;
    forall n: nat, before: nat, after: nat | n > 0 && before >= n && after >= n && s == FinderLine(before, n, after)
      ensures w == [before, n, n, 3 * n, n, n, after] && w[0] == before && w[1] == n && w[6] == after
    {
      FinderLineRuns(before, n, after);
      SameProfile(w, before, n, after);
    }
    if FinderSides(w) > 0 {
      SidesProfile(w);
      FinderLineExpands(w[0], w[1], w[6]);
      assert s == FinderLine(w[0], w[1], w[6]);
      SidesOfRuns(w[0], w[1], w[6]);
    }
    if LooksLikeFinder(s, 4, 1) || LooksLikeFinder(s, 1, 4) {
      SidesOfRuns(w[0], w[1], w[6]);
    }
  }

  lemma CountOfSeven(w: seq<nat>)
    requires |w| == 7
    ensures FinderCount(w) == FinderSides(w)
  {
    hide FinderSides;
    FinderCountUnfold(w);
    assert w[0..] == w;
    FewRuns(Init(w));
  }

  lemma {:induction false} FewRuns(r: seq<nat>)
    requires |r| < 7
    ensures FinderCount(r) == 0
  {
    hide FinderSides;
    if r != [] {
      FewRuns(Init(r));
    }
  }

  lemma BorderedFinder(before: nat, n: nat, after: nat, size: nat)
    ensures Bordered(FinderLine(before, n, after), size) == FinderLine(before + size, n, after + size)
  {
    assert Repeat(false, size) + Repeat(false, before) == Repeat(false, before + size);
    assert Repeat(false, after) + Repeat(false, size) == Repeat(false, after + size);
    hide Repeat;
    var core := Repeat(true, n) + Repeat(false, n) + Repeat(true, 3 * n) + Repeat(false, n) + Repeat(true, n);
    assert FinderLine(before, n, after) == Repeat(false, before) + core + Repeat(false, after);
    assert FinderLine(before + size, n, after + size) == Repeat(false, before + size) + core
                                                         + Repeat(false, after + size);
  }

  lemma LineLength(before: nat, n: nat, after: nat)
    ensures |FinderLine(before, n, after)| == before + 7 * n + after
  {}

  /** A line with nothing but one finder pattern's profile, wherever it lies, costs 40 for each of its sides. */
  lemma LoneFinder(before: nat, n: nat, after: nat)
    requires n > 0
    ensures var line := FinderLine(before, n, after); LinePenalty(line) == RunPenalty(Runs(line)) + 80
  {
    var line := FinderLine(before, n, after);
    LinePenaltyIs(line);
    LineLength(before, n, after);
    hide *;
    var size := |line|;
    BorderedFinder(before, n, after, size);
    FinderLineRuns(before + size, n, after + size);
    CountOfSeven([before + size, n, n, 3 * n, n, n, after + size]);
    SidesOfRuns(before + size, n, after + size);
  }

  lemma LinePenaltyIs(line: seq<bool>)
    ensures LinePenalty(line) == RunPenalty(Runs(line)) + 40 * FinderCount(Runs(Bordered(line, |line|)))
  {
    hide RunPenalty, FinderCount, Runs, Bordered;
  }

  // ---------- Blocks and dark modules ----------

  /** The module has the colour of the three modules to its right and below. */
  ghost predicate OneColour(g: Grid, y: int, x: int)
    requires Square(g) && 0 <= y < |g| - 1 && 0 <= x < |g| - 1
  {
    forall a, b :: y <= a <= y + 1 && x <= b <= x + 1 ==> g[a][b] == g[y][x]
  }

  /** The upper left corners of blocks in the first `h` rows. */
  ghost function BlockCorners(g: Grid, h: int): set<(int, int)>
    requires Square(g) && 0 <= h < |g|
  {
    set y, x | 0 <= y < h && 0 <= x < |g| - 1 && OneColour(g, y, x) :: (y, x)
  }

  ghost function CornersIn(g: Grid, y: int, n: int): set<(int, int)>
    requires Square(g) && 0 <= y < |g| - 1 && 0 <= n < |g|
  {
    set x | 0 <= x < n && OneColour(g, y, x) :: (y, x)
  }

  lemma BlockIs(g: Grid, y: nat, x: nat)
    requires Square(g) && y + 1 < |g| && x + 1 < |g|
    ensures IsBlock(g, y, x) <==> OneColour(g, y, x)
  {}

  lemma OneMoreCorner(g: Grid, y: int, n: int)
    requires Square(g) && 0 <= y < |g| - 1 && 0 < n < |g|
    ensures |CornersIn(g, y, n)| == |CornersIn(g, y, n - 1)| + if OneColour(g, y, n - 1) then 1 else 0
  {
    hide OneColour, Square;
    assert CornersIn(g, y, n) == CornersIn(g, y, n - 1) + if OneColour(g, y, n - 1) then {(y, n - 1)} else {};
  }

  lemma {:induction false} RowBlocksCounted(g: Grid, y: nat, n: nat)
    requires Square(g) && y + 1 < |g| && n < |g|
    ensures BlocksIn(g, y, n) == |CornersIn(g, y, n)|
  {
    if n > 0 {
      RowBlocksCounted(g, y, n - 1);
      BlockIs(g, y, n - 1);
      OneMoreCorner(g, y, n);
      hide IsBlock, OneColour, Square, CornersIn;
    } else {
      assert CornersIn(g, y, n) == {};
    }
  }

  /** Blocks are counted by their upper left corners. */
  lemma {:induction false} BlocksCounted(g: Grid, h: nat)
    requires Square(g) && h < |g|
    ensures Blocks(g, h) == |BlockCorners(g, h)|
  {
    if h > 0 {
      BlocksCounted(g, h - 1);
      RowBlocksCounted(g, h - 1, |g| - 1);
      hide IsBlock, OneColour, Square, BlocksIn;
      CornersSplit(g, h);
    } else {
      assert BlockCorners(g, h) == {};
    }
  }

  lemma CornersSplit(g: Grid, h: int)
    requires Square(g) && 0 < h < |g|
    ensures |BlockCorners(g, h)| == |BlockCorners(g, h - 1)| + |CornersIn(g, h - 1, |g| - 1)|
  {
    hide OneColour, Square;
    assert BlockCorners(g, h) == BlockCorners(g, h - 1) + CornersIn(g, h - 1, |g| - 1);
    assert BlockCorners(g, h - 1) !! CornersIn(g, h - 1, |g| - 1);
  }

  ghost function DarkCells(g: Grid): set<(int, int)> {
    set y, x | 0 <= y < |g| && 0 <= x < |g[y]| && g[y][x] :: (y, x)
  }

  ghost function DarkInRow(line: seq<bool>, y: int): set<(int, int)> {
    set x | 0 <= x < |line| && line[x] :: (y, x)
  }

  lemma {:induction false} RowDarkCounted(line: seq<bool>, y: int)
    ensures DarkIn(line) == |DarkInRow(line, y)|
  {
    if line == [] {
      assert DarkInRow(line, y) == {};
    } else {
      var n := |line| - 1;
      RowDarkCounted(line[..n], y);
      assert DarkInRow(line, y) == DarkInRow(line[..n], y) + if line[n] then {(y, n)} else {};
    }
  }

  lemma DarkSplit(g: Grid, n: nat)
    requires n == |g| - 1
    ensures |DarkCells(g)| == |DarkCells(g[..n])| + |DarkInRow(g[n], n)|
  {
    assert DarkCells(g) == DarkCells(g[..n]) + DarkInRow(g[n], n);
    assert DarkCells(g[..n]) !! DarkInRow(g[n], n);
  }

  /** The balance is that of the number of dark modules. */
  lemma {:induction false} DarkCounted(g: Grid)
    ensures Dark(g) == |DarkCells(g)|
  {
    if g == [] {
      assert DarkCells(g) == {};
    } else {
      var n := |g| - 1;
      DarkCounted(g[..n]);
      RowDarkCounted(g[n], n);
      hide DarkCells, DarkInRow, DarkIn;
      DarkSplit(g, n);
    }
  }

  // ---------- A dark grid ----------

  function DarkGrid(n: nat): (g: Grid)
    requires n > 0
    ensures Square(g) && |g| == n
  {
    seq(n, _ => Repeat(true, n))
  }

  lemma DarkLine(n: nat)
    requires n >= 5
    ensures LinePenalty(Repeat(true, n)) == n - 2
  {
    RunsMore([], true, n);
    assert [] + Repeat(true, n) == Repeat(true, n);
    assert Runs([]) == [] && [] + [n] == [n];
    RunPenaltySnoc([], n);
    BorderedDark(n);
    FewRuns([n, n, n]);
    LinePenaltyIs(Repeat(true, n));
    hide *;
  }

  lemma BorderedDark(n: nat)
    requires n > 0
    ensures Runs(Bordered(Repeat(true, n), n)) == [n, n, n]
  {
    RunsMore([], false, n);
    RunsMore(Repeat(false, n), true, n);
    RunsMore(Repeat(false, n) + Repeat(true, n), false, n);
    assert [] + Repeat(false, n) == Repeat(false, n);
    assert Runs([]) == [] && [] + [n] == [n] && [n] + [n] == [n, n] && [n, n] + [n] == [n, n, n];
    hide Runs;
  }

  lemma {:induction false} DarkLines(n: nat, k: nat)
    requires 5 <= n && k <= n
    ensures RowsPenalty(DarkGrid(n), k) == k * (n - 2) && ColumnsPenalty(DarkGrid(n), k) == k * (n - 2)
  {
    hide LinePenalty;
    if k > 0 {
      DarkLines(n, k - 1);
      DarkLine(n);
      assert DarkGrid(n)[k - 1] == Repeat(true, n) == Column(DarkGrid(n), k - 1);
      assert k * (n - 2) == (k - 1) * (n - 2) + (n - 2);
    }
  }

  lemma {:induction false} DarkRowBlocks(n: nat, y: nat, k: nat)
    requires y + 1 < n && k < n
    ensures BlocksIn(DarkGrid(n), y, k) == k
  {
    if k > 0 {
      DarkRowBlocks(n, y, k - 1);
    }
  }

  lemma {:induction false} DarkBlocks(n: nat, h: nat)
    requires h < n
    ensures Blocks(DarkGrid(n), h) == h * (n - 1)
  {
    if h > 0 {
      DarkBlocks(n, h - 1);
      DarkRowBlocks(n, h - 1, n - 1);
      hide DarkGrid, BlocksIn;
      assert h * (n - 1) == (h - 1) * (n - 1) + (n - 1);
    }
  }

  lemma {:induction false} DarkRow(n: nat)
    ensures DarkIn(Repeat(true, n)) == n
  {
    if n > 0 {
      assert Repeat(true, n)[..n - 1] == Repeat(true, n - 1);
      DarkRow(n - 1);
    }
  }

  lemma {:induction false} DarkRows(n: nat, h: nat)
    ensures Dark(seq(h, _ => Repeat(true, n))) == h * n
  {
    if h > 0 {
      var g := seq(h, _ => Repeat(true, n));
      assert g[..h - 1] == seq(h - 1, _ => Repeat(true, n));
      DarkRows(n, h - 1);
      DarkRow(n);
      assert h * n == (h - 1) * n + n;
    }
  }

  /** What a dark grid costs: its rows and columns as runs, its blocks, and nine steps out of balance. */
  lemma DarkGridPenalty(n: nat)
    requires n >= 5
    ensures GridPenalty(DarkGrid(n)) == 2 * (n * (n - 2)) + 3 * ((n - 1) * (n - 1)) + 90
  {
    DarkLines(n, n);
    DarkBlocks(n, n - 1);
    DarkRows(n, n);
    AllDarkBalance(n * n);
    GridPenaltyIs(DarkGrid(n), n);
    hide RowsPenalty, ColumnsPenalty, Blocks, Dark, BalanceTerm, GridPenalty;
  }

  lemma GridPenaltyIs(g: Grid, n: nat)
    requires Square(g) && |g| == n
    ensures n * n > 0
    ensures GridPenalty(g) == RowsPenalty(g, n) + ColumnsPenalty(g, n) + 3 * Blocks(g, n - 1)
                              + 10 * BalanceTerm(Dark(g), n * n)
  {
    hide RowsPenalty, ColumnsPenalty, Blocks, Dark, BalanceTerm;
  }

  lemma AllDarkBalance(total: nat)
    requires total > 0
    ensures BalanceTerm(total, total) == 9
  {
    assert total * 20 - total * 10 == 10 * total;
    assert (10 * total + total - 1) / total == 10 by {
      assert 11 * total - 1 == 10 * total + (total - 1);
      QuotientIs(total, 10, total - 1);
    }
  }

  lemma QuotientIs(total: nat, q: nat, rest: nat)
    requires rest < total
    ensures (q * total + rest) / total == q
  {
    var k := (q * total + rest) / total;
    if k < q {
      MulMonotone(k + 1, q, total);
    } else if k > q {
      MulMonotone(q + 1, k, total);
    }
  }
}
