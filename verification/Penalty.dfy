/** The penalty score by which a mask is chosen: runs, finder-like patterns, blocks and balance. */
module Penalty {
  import opened Common

  type Grid = seq<seq<bool>>

  const PENALTY_N1 := 3
  const PENALTY_N2 := 3
  const PENALTY_N3 := 40
  const PENALTY_N4 := 10

  // ---------- Runs ----------

  function Last(r: seq<nat>): nat
    requires r != []
  {
    r[|r| - 1]
  }

  function Init(r: seq<nat>): seq<nat>
    requires r != []
  {
    r[..|r| - 1]
  }

  /** The lengths of the maximal runs of equal modules, in order. */
  function Runs(s: seq<bool>): (r: seq<nat>)
    ensures r == [] <==> s == []
  {
    if s == [] then []
    else
      var n := |s| - 1;
      AddModule(Runs(s[..n]), n > 0 && s[n] == s[n - 1])
  }

  /** Lengthens the last run or starts a new one. */
  function AddModule(r: seq<nat>, same: bool): (r': seq<nat>)
    requires same ==> r != []
    ensures r' != []
  {
    if same then Init(r) + [Last(r) + 1] else r + [1]
  }

  lemma RunsUnfold(t: seq<bool>)
    requires t != []
    ensures Runs(t) == AddModule(Runs(t[..|t| - 1]), |t| > 1 && t[|t| - 1] == t[|t| - 2])
  {
    hide AddModule;
  }

  lemma RunsSnoc(s: seq<bool>, c: bool)
    ensures Runs(s + [c]) == AddModule(Runs(s), s != [] && c == s[|s| - 1])
  {
    hide AddModule, Runs;
    var t := s + [c];
    RunsUnfold(t);
    assert t[..|t| - 1] == s;
  }

  lemma {:induction false} RunsBounds(s: seq<bool>)
    ensures forall k :: 0 <= k < |Runs(s)| ==> 0 < Runs(s)[k] <= |s|
  {
    if s != [] {
      var n := |s| - 1;
      RunsBounds(s[..n]);
      RunsSnoc(s[..n], s[n]);
      assert s == s[..n] + [s[n]];
      hide Runs;
    }
  }

  function Repeat(c: bool, n: nat): (s: seq<bool>)
    ensures |s| == n && forall k :: 0 <= k < n ==> s[k] == c
  {
    seq(n, _ => c)
  }

  /** The modules with the given run lengths, whose last run has colour `last`. */
  function Expand(r: seq<nat>, last: bool): seq<bool> {
    if r == [] then [] else Expand(Init(r), !last) + Repeat(last, Last(r))
  }

  lemma ExpandSnoc(r: seq<nat>, n: nat, last: bool)
    ensures Expand(r + [n], last) == Expand(r, !last) + Repeat(last, n)
  {
    assert Init(r + [n]) == r;
  }

  /** Runs of alternating colours with these lengths make up the line, so they are its maximal runs. */
  lemma {:induction false} RunsExpand(s: seq<bool>)
    requires s != []
    ensures Expand(Runs(s), s[|s| - 1]) == s
  {
    hide Runs, Expand;
    var n := |s| - 1;
    var t, c := s[..n], s[n];
    assert s == t + [c];
    RunsSnoc(t, c);
    ExpandSnoc(Runs(t), 1, c);
    assert Repeat(c, 1) == [c];
    if n > 0 {
      RunsExpand(t);
      var r, k := Init(Runs(t)), Last(Runs(t));
      if c == t[n - 1] {
        assert Runs(t) == r + [k];
        ExpandSnoc(r, k, c);
        ExpandSnoc(r, k + 1, c);
        assert Repeat(c, k + 1) == Repeat(c, k) + [c];
      }
    } else {
      ExpandEmpty(!c);
    }
  }

  lemma ExpandEmpty(c: bool)
    ensures Expand([], c) == []
  {}

  /** 3 for a run of five equal modules and 1 for each further one. */
  function RunPenalty(r: seq<nat>): nat {
    if r == [] then 0
    else
      var n := Last(r);
      RunPenalty(Init(r)) + (if n >= 5 then PENALTY_N1 + (n - 5) else 0)
  }

  // ---------- Finder-like patterns ----------

  /** The number of sides on which seven runs that start and end light look like a finder pattern: dark, light, dark,
      light, dark in the ratio 1:1:3:1:1, with light of length 4 on one side and at least 1 on the other. */
  function FinderSides(w: seq<nat>): nat
    requires |w| == 7
  {
    var n := w[1];
    var core := n > 0 && w[2] == n && w[3] == 3 * n && w[4] == n && w[5] == n;
    (if core && w[0] >= 4 * n && w[6] >= n then 1 else 0) + (if core && w[6] >= 4 * n && w[0] >= n then 1 else 0)
  }

  /** The sides found over all windows of seven runs that end in a light run, given that the first run is light. */
  function FinderCount(r: seq<nat>): nat {
    if r == [] then 0
    else FinderCount(Init(r)) + (if |r| >= 7 && |r| % 2 == 1 then FinderSides(r[|r| - 7..]) else 0)
  }

  /** A line with a light border of `size` modules at each end. */
  function Bordered(line: seq<bool>, size: nat): seq<bool> {
    Repeat(false, size) + line + Repeat(false, size)
  }

  /** The direct definition of a line's penalty. */
  function LinePenalty(line: seq<bool>): nat {
    RunPenalty(Runs(line)) + FinderCount(Runs(Bordered(line, |line|))) * PENALTY_N3
  }

  // ---------- The streaming computation ----------

  /** The last seven of the runs, the most recent first, zero where there are none. */
  function Recent(r: seq<nat>): (h: seq<nat>)
    ensures |h| == 7
  {
    seq(7, i requires 0 <= i < 7 => if i < |r| then r[|r| - 1 - i] else 0)
  }

  /** The entries of a history, the oldest first. */
  function Oldest(h: seq<nat>): (w: seq<nat>)
    requires |h| == 7
    ensures |w| == 7
  {
    [h[6], h[5], h[4], h[3], h[2], h[1], h[0]]
  }

  /** Number of sides seen in a history whose most recent entry is a light run. */
  method FinderPenaltyCountPatterns(runHistory: array<nat>, size: nat) returns (count: nat)
    requires runHistory.Length == 7 && runHistory[1] <= size * 3
    ensures count == FinderSides(Oldest(runHistory[..]))
  {
    var n := runHistory[1];
    var core := n > 0 && runHistory[2] == n && runHistory[3] == n * 3 && runHistory[4] == n && runHistory[5] == n;
    count := (if core && runHistory[0] >= n * 4 && runHistory[6] >= n then 1 else 0)
    + (if core && runHistory[6] >= n * 4 && runHistory[0] >= n then 1 else 0);
  }

  /** A history with one more run; the first run gets the light border added. */
  function Shifted(h: seq<nat>, run: nat, size: nat): (h': seq<nat>)
    requires |h| == 7
    ensures |h'| == 7
  {
    [run + (if h[0] == 0 then size else 0)] + h[..6]
  }

  /** Shifts a run into the history; the first run gets the light border added. */
  method FinderPenaltyAddHistory(currentRunLength: nat, runHistory: array<nat>, size: nat)
    requires runHistory.Length == 7
    modifies runHistory
    ensures runHistory[..] == Shifted(old(runHistory[..]), currentRunLength, size)
  {
    var run := currentRunLength;
    if runHistory[0] == 0 {
      run := run + size;
    }
    var i := 6;
    while i > 0
      invariant 0 <= i <= 6
      invariant forall k :: 0 <= k <= i ==> runHistory[k] == old(runHistory[k])
      invariant forall k :: i < k < 7 ==> runHistory[k] == old(runHistory[k - 1])
    {
      runHistory[i] := runHistory[i - 1];
      i := i - 1;
    }
    runHistory[0] := run;
  }

  lemma RecentPush(r: seq<nat>, n: nat)
    ensures Recent(r + [n]) == [n] + Recent(r)[..6]
  {}

  lemma RecentHead(r: seq<nat>)
    requires forall k :: 0 <= k < |r| ==> r[k] > 0
    ensures Recent(r)[0] == 0 <==> r == []
  {}

  /** The history's verdict is that of the last window of seven runs, if there are that many. */
  lemma CountRecent(r: seq<nat>)
    ensures var h := Recent(r);
      FinderSides(Oldest(h)) == if |r| >= 7 then FinderSides(r[|r| - 7..]) else 0
  {
    if |r| >= 7 {
      var h := Recent(r);
      assert Oldest(h) == r[|r| - 7..];
    }
  }

  /** The part of the line's score that is known once its first modules are seen, from the runs `r` of the border and
      these modules and the runs `o` of these modules alone. */
  function Score(r: seq<nat>, o: seq<nat>): nat
    requires r != []
  {
    RunPenalty(o) + FinderCount(Init(r)) * PENALTY_N3
  }

  /** The streaming state after a prefix of the line, in terms of the runs `r` of the border followed by the prefix and
      the runs `o` of the prefix. */
  ghost predicate Tracks(r: seq<nat>, o: seq<nat>, size: nat, runColor: bool, run: nat, history: seq<nat>,
          result: nat) {
    && r != []
    && (forall k :: 0 <= k < |r| ==> 0 < r[k] <= 3 * size)
    && history == Recent(Init(r))
    && Last(r) == run + (if |r| == 1 then size else 0)
    && |r| % 2 == (if runColor then 0 else 1)
    && run == (if o == [] then 0 else Last(o))
    && result == Score(r, o)
  }

  lemma TracksStart(size: nat)
    requires size > 0
    ensures Tracks([size], [], size, false, 0, [0, 0, 0, 0, 0, 0, 0], 0)
  {
    assert Init([size]) == [];
  }

  lemma RunPenaltySnoc(r: seq<nat>, n: nat)
    ensures RunPenalty([]) == 0
    ensures RunPenalty(r + [n]) == RunPenalty(r) + (if n >= 5 then PENALTY_N1 + (n - 5) else 0)
  {
    assert Init(r + [n]) == r;
  }

  lemma FinderCountSnoc(r: seq<nat>, n: nat)
    ensures FinderCount(r + [n]) == FinderCount(r) + (if |r| % 2 == 0 then FinderSides(Oldest(Recent(r + [n]))) else 0)
  {
    hide FinderSides, Recent, Oldest, FinderCount;
    var t := r + [n];
    assert Init(t) == r;
    CountRecent(t);
    FinderCountUnfold(t);
  }

  lemma FinderCountUnfold(t: seq<nat>)
    requires t != []
    ensures FinderCount(t) == FinderCount(Init(t)) + (if |t| >= 7 && |t| % 2 == 1 then FinderSides(t[|t| - 7..]) else 0)
  {
    hide FinderSides;
  }

  /** One more module of the current colour. */
  lemma TracksSame(r: seq<nat>, o: seq<nat>, size: nat, runColor: bool, run: nat, history: seq<nat>, result: nat)
    requires Tracks(r, o, size, runColor, run, history, result) && Last(r) < 3 * size
    requires o == [] ==> !runColor
    ensures Tracks(AddModule(r, true), AddModule(o, o != []), size, runColor, run + 1, history,
                   result + (if run + 1 == 5 then PENALTY_N1 else if run + 1 > 5 then 1 else 0))
  {
    ScoreSame(r, o);
    hide Score, Recent;
    assert Init(AddModule(r, true)) == Init(r);
  }

  lemma ScoreSame(r: seq<nat>, o: seq<nat>)
    requires r != []
    ensures var n := if o == [] then 1 else Last(o) + 1;
      Score(AddModule(r, true), AddModule(o, o != []))
      == Score(r, o) + (if n == 5 then PENALTY_N1 else if n > 5 then 1 else 0)
  {
    hide RunPenalty, FinderCount;
    assert Init(AddModule(r, true)) == Init(r);
    if o == [] {
      RunPenaltySnoc([], 1);
      assert AddModule(o, false) == [] + [1];
    } else {
      assert o == Init(o) + [Last(o)];
      RunPenaltySnoc(Init(o), Last(o));
      RunPenaltySnoc(Init(o), Last(o) + 1);
    }
  }

  /** What the history holds once a run that lengthens the current one by `more` is shifted into it. */
  lemma HistoryShifted(r: seq<nat>, run: nat, size: nat, more: nat)
    requires r != [] && (forall k :: 0 <= k < |r| ==> 0 < r[k]) && Last(r) == run + (if |r| == 1 then size else 0)
    ensures Shifted(Recent(Init(r)), run + more, size) == Recent(Init(r) + [Last(r) + more])
  {
    RecentHead(Init(r));
    RecentPush(Init(r), Last(r) + more);
    hide Recent;
  }

  lemma RecentBounds(r: seq<nat>, bound: nat)
    requires forall k :: 0 <= k < |r| ==> r[k] <= bound
    ensures Recent(r)[1] <= bound
  {}

  /** One module of the other colour: the current run ends, and a light run that ends is looked at. */
  lemma TracksOther(r: seq<nat>, o: seq<nat>, size: nat, runColor: bool, run: nat, history: seq<nat>, result: nat)
    requires Tracks(r, o, size, runColor, run, history, result) && |history| == 7
    ensures var h := Shifted(history, run, size);
      && h[1] <= size * 3
      && Tracks(r + [1], o + [1], size, !runColor, 1, h,
                result + (if runColor then 0 else FinderSides(Oldest(h)) * PENALTY_N3))
  {
    hide Score, FinderCount, FinderSides, Recent, Oldest, Shifted;
    assert r == Init(r) + [Last(r)];
    HistoryShifted(r, run, size, 0);
    RecentBounds(r, 3 * size);
    FinderCountSnoc(Init(r), Last(r));
    NewRun(r, o, if runColor then 0 else FinderSides(Oldest(Recent(r))));
  }

  lemma NewRun(r: seq<nat>, o: seq<nat>, sides: nat)
    requires r != [] && FinderCount(r) == FinderCount(Init(r)) + sides
    ensures Init(r + [1]) == r && Last(r + [1]) == 1 && Last(o + [1]) == 1
    ensures Score(r + [1], o + [1]) == Score(r, o) + sides * PENALTY_N3
  {
    hide RunPenalty, FinderCount;
    assert Init(r + [1]) == r;
    RunPenaltySnoc(o, 1);
  }

  /** The end of the line: a dark run ends, and the light border either follows it or lengthens the last run. */
  lemma TracksEnd(r: seq<nat>, o: seq<nat>, size: nat, runColor: bool, run: nat, history: seq<nat>, result: nat)
    requires Tracks(r, o, size, runColor, run, history, result) && size > 0 && Last(r) <= 2 * size
    ensures var ended := if runColor then Shifted(history, run, size) else history;
      var h := Shifted(ended, (if runColor then 0 else run) + size, size);
      && h[1] <= size * 3
      && RunPenalty(o) + FinderCount(AddLight(r, runColor, size)) * PENALTY_N3
        == result + FinderSides(Oldest(h)) * PENALTY_N3
  {
    hide RunPenalty, FinderCount, FinderSides, Recent, Oldest, Shifted;
    var s, n := Init(r), Last(r);
    assert r == s + [n];
    if runColor {
      HistoryShifted(r, run, size, 0);
      EndsDark(r, size);
      FinderCountSnoc(s, n);
    } else {
      HistoryShifted(r, run, size, size);
      FinderCountSnoc(s, n + size);
      RecentBounds(s + [n + size], 3 * size);
    }
  }

  /** A light run of `size` is shifted into the history after the other runs. */
  lemma EndsDark(r: seq<nat>, size: nat)
    requires size > 0 && r != [] && |r| % 2 == 0 && (forall k :: 0 <= k < |r| ==> 0 < r[k] <= 3 * size)
    ensures Shifted(Recent(r), size, size) == Recent(r + [size]) && Recent(r + [size])[1] <= 3 * size
    ensures FinderCount(r + [size]) == FinderCount(r) + FinderSides(Oldest(Recent(r + [size])))
  {
    hide FinderCount, FinderSides, Recent, Oldest, Shifted;
    assert Init(r + [size]) == r;
    HistoryShifted(r + [size], size, size, 0);
    FinderCountSnoc(r, size);
    RecentBounds(r + [size], 3 * size);
  }

  /** The runs of a line followed by light modules. */
  function AddLight(r: seq<nat>, dark: bool, n: nat): seq<nat>
    requires r != []
  {
    if dark then r + [n] else Init(r) + [Last(r) + n]
  }

  lemma {:induction false} RunsLight(p: seq<bool>, n: nat)
    requires p != [] && n > 0
    ensures Runs(p + Repeat(false, n)) == AddLight(Runs(p), p[|p| - 1], n)
  {
    hide Runs;
    var t := p + Repeat(false, n - 1);
    assert p + Repeat(false, n) == t + [false];
    RunsSnoc(t, false);
    if n == 1 {
      assert t == p;
    } else {
      RunsLight(p, n - 1);
      var r := Runs(t);
      assert Init(r) == if p[|p| - 1] then Runs(p) else Init(Runs(p));
    }
  }

  lemma {:induction false} RunsOfRepeat(n: nat)
    requires n > 0
    ensures Runs(Repeat(false, n)) == [n]
  {
    if n == 1 {
      assert Repeat(false, 1) == [] + [false];
      RunsSnoc([], false);
    } else {
      RunsOfRepeat(n - 1);
      RunsSnoc(Repeat(false, n - 1), false);
      assert Repeat(false, n) == Repeat(false, n - 1) + [false];
    }
  }

  /** The state after the first `x` modules of the line. */
  ghost predicate TracksLine(line: seq<bool>, x: nat, runColor: bool, run: nat, history: seq<nat>, result: nat)
    requires x <= |line|
  {
    var q := line[..x];
    && (q == [] ==> !runColor) && (q != [] ==> q[x - 1] == runColor)
    && Tracks(Runs(Repeat(false, |line|) + q), Runs(q), |line|, runColor, run, history, result)
  }

  /** What one more module does to the runs. */
  lemma LineStep(line: seq<bool>, x: nat, runColor: bool)
    requires x < |line|
    requires x == 0 ==> !runColor
    requires x > 0 ==> line[x - 1] == runColor
    ensures var q := line[..x]; var p := Repeat(false, |line|) + q;
      && Runs(line[..x + 1]) == AddModule(Runs(q), q != [] && line[x] == runColor)
      && Runs(Repeat(false, |line|) + line[..x + 1]) == AddModule(Runs(p), line[x] == runColor)
      && Last(Runs(p)) < 3 * |line|
  {
    hide Runs, AddModule, Last, Repeat;
    var q, border := line[..x], Repeat(false, |line|);
    assert line[..x + 1] == q + [line[x]];
    assert border + line[..x + 1] == border + q + [line[x]];
    assert border[|border| - 1] == false;
    RunsSnoc(q, line[x]);
    RunsSnoc(border + q, line[x]);
    LastBound(border + q);
  }

  lemma LastBound(s: seq<bool>)
    requires s != []
    ensures Last(Runs(s)) <= |s|
  {
    RunsBounds(s);
  }

  /** The penalty of one row or column, computed in one pass. */
  method ScoreLine(line: seq<bool>) returns (result: nat)
    requires line != []
    ensures result == LinePenalty(line)
  {
    hide Tracks, Runs, LinePenalty, Repeat;
    var size := |line|;
    var runColor := false;
    var run: nat := 0;
    var runHistory := new nat[7](_ => 0);
    result := 0;
    assert runHistory[..] == [0, 0, 0, 0, 0, 0, 0];
    TracksStart(size);
    RunsOfRepeat(size);
    assert Repeat(false, size) + line[..0] == Repeat(false, size) && Runs([]) == [];
    for x := 0 to size
      invariant TracksLine(line, x, runColor, run, runHistory[..], result)
    {
      LineStep(line, x, runColor);
      ghost var r, o := Runs(Repeat(false, size) + line[..x]), Runs(line[..x]);
      if line[x] == runColor {
        TracksSame(r, o, size, runColor, run, runHistory[..], result);
        run := run + 1;
        if run == 5 {
          result := result + PENALTY_N1;
        } else if run > 5 {
          result := result + 1;
        }
      } else {
        TracksOther(r, o, size, runColor, run, runHistory[..], result);
        FinderPenaltyAddHistory(run, runHistory, size);
        if !runColor {
          var count := FinderPenaltyCountPatterns(runHistory, size);
          result := result + count * PENALTY_N3;
        }
        runColor := line[x];
        run := 1;
      }
    }
    LineEnd(line, runColor, run, runHistory[..], result);
    var count := FinderPenaltyTerminateAndCount(runColor, run, runHistory, size);
    result := result + count * PENALTY_N3;
  }

  lemma LineEnd(line: seq<bool>, runColor: bool, run: nat, history: seq<nat>, result: nat)
    requires line != [] && TracksLine(line, |line|, runColor, run, history, result) && |history| == 7
    ensures var h := Terminated(history, runColor, run, |line|);
      && h[1] <= |line| * 3
      && LinePenalty(line) == result + FinderSides(Oldest(h)) * PENALTY_N3
  {
    hide RunPenalty, FinderCount, FinderSides, Runs;
    assert line[..|line|] == line;
    var p := Repeat(false, |line|) + line;
    RunsBounds(p);
    RunsLight(p, |line|);
    hide Repeat;
    TracksEnd(Runs(p), Runs(line), |line|, runColor, run, history, result);
  }

  /** The history after the last run and the light border. */
  function Terminated(h: seq<nat>, runColor: bool, run: nat, size: nat): (h': seq<nat>)
    requires |h| == 7
    ensures |h'| == 7
  {
    Shifted(if runColor then Shifted(h, run, size) else h, (if runColor then 0 else run) + size, size)
  }

  /** Ends the last run, adds the light border and looks at the last window. */
  method FinderPenaltyTerminateAndCount(currentRunColor: bool, currentRunLength: nat, runHistory: array<nat>, size: nat)
    returns (count: nat)
    requires runHistory.Length == 7
      && Terminated(runHistory[..], currentRunColor, currentRunLength, size)[1] <= size * 3
    modifies runHistory
    ensures count == FinderSides(Oldest(Terminated(old(runHistory[..]), currentRunColor, currentRunLength, size)))
  {
    hide Shifted, FinderSides, Oldest;
    var run := currentRunLength;
    if currentRunColor {
      FinderPenaltyAddHistory(run, runHistory, size);
      run := 0;
    }
    run := run + size;
    FinderPenaltyAddHistory(run, runHistory, size);
    count := FinderPenaltyCountPatterns(runHistory, size);
  }

  // ---------- The whole grid ----------

  predicate Square(g: Grid) {
    g != [] && forall y :: 0 <= y < |g| ==> |g[y]| == |g|
  }

  function Column(g: Grid, x: nat): (line: seq<bool>)
    requires Square(g) && x < |g|
    ensures |line| == |g|
  {
    seq(|g|, y requires 0 <= y < |g| => g[y][x])
  }

  function RowsPenalty(g: Grid, n: nat): nat
    requires Square(g) && n <= |g|
  {
    if n == 0 then 0 else RowsPenalty(g, n - 1) + LinePenalty(g[n - 1])
  }

  function ColumnsPenalty(g: Grid, n: nat): nat
    requires Square(g) && n <= |g|
  {
    if n == 0 then 0 else ColumnsPenalty(g, n - 1) + LinePenalty(Column(g, n - 1))
  }

  predicate IsBlock(g: Grid, y: nat, x: nat)
    requires Square(g)
  {
    y + 1 < |g| && x + 1 < |g| && g[y][x] == g[y][x + 1] == g[y + 1][x] == g[y + 1][x + 1]
  }

  /** The number of 2 by 2 blocks of one colour whose top left corner is among the first `n` modules of row y. */
  function BlocksIn(g: Grid, y: nat, n: nat): nat
    requires Square(g)
  {
    if n == 0 then 0 else BlocksIn(g, y, n - 1) + (if IsBlock(g, y, n - 1) then 1 else 0)
  }

  /** The number of these blocks in the first `n` rows. */
  function Blocks(g: Grid, n: nat): nat
    requires Square(g)
  {
    if n == 0 then 0 else Blocks(g, n - 1) + BlocksIn(g, n - 1, |g| - 1)
  }

  /** The number of dark modules of a row. */
  function DarkIn(line: seq<bool>): nat {
    if line == [] then 0 else DarkIn(line[..|line| - 1]) + (if line[|line| - 1] then 1 else 0)
  }

  function Dark(g: Grid): nat {
    if g == [] then 0 else Dark(g[..|g| - 1]) + DarkIn(g[|g| - 1])
  }

  /** k steps of 5 percent away from an even balance are enough. */
  predicate Balanced(dark: nat, total: nat, k: nat) {
    (45 - 5 * k) * total <= 100 * dark <= (55 + 5 * k) * total
  }

  /** The balance term: for an odd number of modules it is the least number of steps that is enough. */
  lemma BalanceIsLeast(dark: nat, total: nat, k: int)
    requires dark <= total && total % 2 == 1
    requires k == (Abs(dark * 20 - total * 10) + total - 1) / total - 1
    ensures 0 <= k <= 9 && Balanced(dark, total, k) && forall j: nat :: j < k ==> !Balanced(dark, total, j)
  {
    hide Abs, Balanced;
    var d := Abs(dark * 20 - total * 10);
    AbsIs(dark * 20 - total * 10);
    assert dark * 20 - total * 10 == 10 * (2 * dark - total) && 2 * dark - total != 0;
    CeilingIs(d, total, k);
    BalancedIs(dark, total, k);
    forall j: nat | j < k
      ensures !Balanced(dark, total, j)
    {
      BalancedIs(dark, total, j);
      MulMonotone(j + 1, k, total);
    }
  }

  lemma AbsIs(n: int)
    ensures Abs(n) == if n < 0 then -n else n
  {}

  /** k + 1 is d / total rounded up. */
  lemma CeilingIs(d: nat, total: nat, k: int)
    requires total > 0 && 0 < d <= 10 * total && k == (d + total - 1) / total - 1
    ensures 0 <= k <= 9 && k * total < d <= (k + 1) * total
  {
    var q := (d + total - 1) / total;
    assert d + total - 1 == q * total + (d + total - 1) % total;
    assert (k + 1) * total == q * total == k * total + total;
    if q > 10 {
      MulMonotone(11, q, total);
    }
    if q < 1 {
      MulMonotone(q, 0, total);
    }
  }

  lemma BalancedIs(dark: nat, total: nat, k: nat)
    ensures Balanced(dark, total, k) <==> Abs(dark * 20 - total * 10) <= (k + 1) * total
  {
    assert (45 - 5 * k) * total == 45 * total - 5 * (k * total);
    assert (55 + 5 * k) * total == 55 * total + 5 * (k * total);
    assert (k + 1) * total == k * total + total;
  }

  /** The penalty score of a square grid. */
  function GridPenalty(g: Grid): int
    requires Square(g)
  {
    var total := |g| * |g|;
    RowsPenalty(g, |g|) + ColumnsPenalty(g, |g|) + Blocks(g, |g| - 1) * PENALTY_N2
      + BalanceTerm(Dark(g), total) * PENALTY_N4
  }

  function BalanceTerm(dark: nat, total: nat): int
    requires total > 0
  {
    (Abs(dark * 20 - total * 10) + total - 1) / total - 1
  }

  lemma {:induction false} DarkInBound(line: seq<bool>)
    ensures DarkIn(line) <= |line|
  {
    if line != [] {
      DarkInBound(line[..|line| - 1]);
    }
  }

  lemma {:induction false} DarkBound(g: Grid, width: nat)
    requires forall y :: 0 <= y < |g| ==> |g[y]| == width
    ensures Dark(g) <= |g| * width
  {
    if g != [] {
      DarkBound(g[..|g| - 1], width);
      DarkInBound(g[|g| - 1]);
      assert |g| * width == (|g| - 1) * width + width;
    }
  }

  lemma OddSquare(n: nat)
    requires n % 2 == 1
    ensures n * n % 2 == 1
  {
    var h := n / 2;
    assert n * n == 2 * (n * h) + n;
  }

  /** In a grid of odd size the balance term is the least k that makes (45-5k)% <= dark/total <= (55+5k)%, and at most
      9. */
  lemma GridBalance(g: Grid)
    requires Square(g) && |g| % 2 == 1
    ensures var k := BalanceTerm(Dark(g), |g| * |g|);
      0 <= k <= 9 && Balanced(Dark(g), |g| * |g|, k) && forall j: nat :: j < k ==> !Balanced(Dark(g), |g| * |g|, j)
  {
    DarkBound(g, |g|);
    OddSquare(|g|);
    hide Balanced, Dark;
    BalanceIsLeast(Dark(g), |g| * |g|, BalanceTerm(Dark(g), |g| * |g|));
  }

  /** Scores every row and column, the blocks and the balance. */
  method GetPenaltyScore(g: Grid) returns (result: int)
    requires Square(g)
    ensures result == GridPenalty(g)
  {
    hide LinePenalty, DarkIn;
    result := 0;
    for y := 0 to |g|
      invariant result == RowsPenalty(g, y)
    {
      var line := ScoreLine(g[y]);
      result := result + line;
    }
    for x := 0 to |g|
      invariant result == RowsPenalty(g, |g|) + ColumnsPenalty(g, x)
    {
      var line := ScoreLine(Column(g, x));
      result := result + line;
    }
    result := AddBlocks(g, result);
    var dark := CountDark(g);
    var total := |g| * |g|;
    var k := (Abs(dark * 20 - total * 10) + total - 1) / total - 1;
    result := result + k * PENALTY_N4;
  }

  method AddBlocks(g: Grid, result0: int) returns (result: int)
    requires Square(g)
    ensures result == result0 + Blocks(g, |g| - 1) * PENALTY_N2
  {
    result := result0;
    for y := 0 to |g| - 1
      invariant result == result0 + Blocks(g, y) * PENALTY_N2
    {
      for x := 0 to |g| - 1
        invariant result == result0 + (Blocks(g, y) + BlocksIn(g, y, x)) * PENALTY_N2
      {
        var color := g[y][x];
        if color == g[y][x + 1] && color == g[y + 1][x] && color == g[y + 1][x + 1] {
          result := result + PENALTY_N2;
        }
      }
    }
  }

  method CountDark(g: Grid) returns (dark: nat)
    ensures dark == Dark(g)
  {
    dark := 0;
    for y := 0 to |g|
      invariant dark == Dark(g[..y])
    {
      var row := g[y];
      for x := 0 to |row|
        invariant dark == Dark(g[..y]) + DarkIn(row[..x])
      {
        assert row[..x + 1][..x] == row[..x];
        if row[x] {
          dark := dark + 1;
        }
      }
      assert row[..|row|] == row;
      assert g[..y + 1][..y] == g[..y];
    }
    assert g[..|g|] == g;
  }
}
