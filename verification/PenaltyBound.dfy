/** The range of the penalty score, which the source asserts and relies on to always choose a mask. */
module PenaltyBound {
  import opened Penalty

  const MAX_SIZE := 177
  const MAX_PENALTY := 2568888

  function Total(r: seq<nat>): nat {
    if r == [] then 0 else Total(Init(r)) + Last(r)
  }

  lemma {:induction false} RunPenaltyBound(r: seq<nat>)
    ensures RunPenalty(r) <= Total(r)
  {
    if r != [] {
      RunPenaltyBound(Init(r));
    }
  }

  lemma TotalSnoc(r: seq<nat>, n: nat)
    ensures Total(r + [n]) == Total(r) + n
  {
    assert Init(r + [n]) == r;
  }

  /** The runs add up to the line. */
  lemma {:induction false} RunsTotal(s: seq<bool>)
    ensures Total(Runs(s)) == |s|
  {
    hide *;
    if s == [] {
      NoRuns();
    } else {
      var t, c := s[..|s| - 1], s[|s| - 1];
      assert s == t + [c];
      RunsTotal(t);
      RunsSnoc(t, c);
      TotalAdd(Runs(t), t != [] && c == t[|t| - 1]);
    }
  }

  lemma NoRuns()
    ensures Runs([]) == [] && Total([]) == 0
  {}

  lemma TotalAdd(r: seq<nat>, same: bool)
    requires same ==> r != []
    ensures Total(AddModule(r, same)) == Total(r) + 1
  {
    hide Total;
    if same {
      TotalSnoc(Init(r), Last(r));
      TotalSnoc(Init(r), Last(r) + 1);
      assert r == Init(r) + [Last(r)];
    } else {
      TotalSnoc(r, 1);
    }
  }

  /** No two windows that start two runs apart both look like a finder pattern. */
  lemma WindowsApart(v: seq<nat>, w: seq<nat>)
    requires |v| == 7 && |w| == 7 && w[..5] == v[2..]
    ensures FinderSides(v) + FinderSides(w) <= 2
  {
    assert w[1] == v[3] && w[2] == v[4] && w[3] == v[5];
  }

  lemma FinderBack(r: seq<nat>)
    requires r != []
    ensures FinderCount(r) == FinderCount(Init(r)) + LastSides(r)
  {
    FinderCountUnfold(r);
  }

  /** The sides found in the last window. */
  function LastSides(r: seq<nat>): nat {
    if |r| >= 7 && |r| % 2 == 1 then FinderSides(r[|r| - 7..]) else 0
  }

  predicate Odd(r: seq<nat>) {
    |r| % 2 == 1
  }

  lemma OddInit(r: seq<nat>)
    requires r != []
    ensures |Init(r)| == |r| - 1 && (Odd(Init(r)) <==> !Odd(r))
  {}

  lemma LastSidesApart(r: seq<nat>)
    requires |r| > 4
    ensures LastSides(r) + LastSides(Init(r)) + LastSides(Init(Init(r))) + LastSides(Init(Init(Init(r)))) <= 2
  {
    hide *;
    OddInit(r);
    OddInit(Init(r));
    OddInit(Init(Init(r)));
    if Odd(r) {
      NoSides(Init(r));
      NoSides(Init(Init(Init(r))));
      SidesApart(r);
    } else {
      NoSides(r);
      NoSides(Init(Init(r)));
      SidesApart(Init(r));
    }
  }

  lemma NoSides(r: seq<nat>)
    requires !Odd(r)
    ensures LastSides(r) == 0
  {}

  lemma SidesApart(r: seq<nat>)
    requires |r| > 3
    ensures LastSides(r) + LastSides(Init(Init(r))) <= 2
  {
    hide FinderSides;
    var n := |r|;
    if n >= 9 && n % 2 == 1 {
      WindowsApart(r[n - 9..n - 2], r[n - 7..]);
      assert Init(Init(r))[n - 9..] == r[n - 9..n - 2];
    } else if n == 7 {
      SidesBound(r[0..]);
    }
  }

  lemma SidesBound(w: seq<nat>)
    ensures |w| == 7 ==> FinderSides(w) <= 2
  {}

  lemma {:induction false} FinderBound(r: seq<nat>)
    ensures 2 * FinderCount(r) <= |r|
  {
    hide FinderCount, LastSides;
    if |r| <= 4 {
      FinderNone(r);
    } else {
      LastSidesApart(r);
      FinderBack(r);
      FinderBack(Init(r));
      FinderBack(Init(Init(r)));
      FinderBack(Init(Init(Init(r))));
      FinderBound(Init(Init(Init(Init(r)))));
    }
  }

  lemma {:induction false} FinderNone(r: seq<nat>)
    requires |r| < 7
    ensures FinderCount(r) == 0
  {
    if r != [] {
      FinderNone(Init(r));
    }
  }

  lemma {:induction false} RunsOfExtension(border: seq<bool>, q: seq<bool>)
    ensures |Runs(border + q)| <= |Runs(border)| + |q|
  {
    hide Runs;
    if q == [] {
      assert border + q == border;
    } else {
      var t, c := q[..|q| - 1], q[|q| - 1];
      RunsOfExtension(border, t);
      RunsSnoc(border + t, c);
      assert border + q == border + t + [c];
    }
  }

  /** A line scores at most 21 per module, and 40 for the border. */
  lemma LineBound(line: seq<bool>)
    requires line != []
    ensures LinePenalty(line) <= 21 * |line| + 40
  {
    var light := Repeat(false, |line|);
    RunsOfRepeat(|line|);
    RunsOfExtension(light, line);
    RunsLight(light + line, |line|);
    FinderBound(Runs(Bordered(line, |line|)));
    RunPenaltyBound(Runs(line));
    RunsTotal(line);
    hide Runs, FinderCount, RunPenalty, Total;
  }

  lemma {:induction false} RowsBound(g: Grid, n: nat)
    requires Square(g) && n <= |g| <= MAX_SIZE
    ensures RowsPenalty(g, n) <= 3757 * n && ColumnsPenalty(g, n) <= 3757 * n
  {
    hide LinePenalty;
    if n > 0 {
      RowsBound(g, n - 1);
      LineBound(g[n - 1]);
      LineBound(Column(g, n - 1));
    }
  }

  lemma {:induction false} BlocksInBound(g: Grid, y: nat, n: nat)
    requires Square(g)
    ensures BlocksIn(g, y, n) <= n
  {
    if n > 0 {
      BlocksInBound(g, y, n - 1);
    }
  }

  lemma {:induction false} BlocksBound(g: Grid, n: nat)
    requires Square(g) && |g| <= MAX_SIZE
    ensures Blocks(g, n) <= 176 * n
  {
    if n > 0 {
      BlocksBound(g, n - 1);
      BlocksInBound(g, n - 1, |g| - 1);
    }
  }

  /** The score of every symbol lies in the range that the source asserts. */
  lemma PenaltyInRange(g: Grid)
    requires Square(g) && |g| % 2 == 1 && |g| <= MAX_SIZE
    ensures 0 <= GridPenalty(g) <= MAX_PENALTY
  {
    hide RowsPenalty, ColumnsPenalty, Blocks, BalanceTerm, Dark, Balanced;
    RowsBound(g, |g|);
    BlocksBound(g, |g| - 1);
    GridBalance(g);
  }
}
