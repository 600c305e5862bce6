/** Patterns without separator marks: when a star can be looked at behind a run of characters that would hide it. */
module TrieRuns {
  import opened TrieShape
  import opened TrieSearch
  import opened TrieHits
  import opened TrieMissed

  predicate OneStar(w: string) {
    forall i, j :: 0 <= i < j < |w| ==> w[i] != '*' || w[j] != '*'
  }

  /** The path ends in a star, characters `c` after it aside. */
  predicate EndsInRun(p: string, c: char) {
    p != "" && (p[|p| - 1] == '*' || (p[|p| - 1] == c && EndsInRun(p[..|p| - 1], c)))
  }

  /** Further stars aside, the pattern goes on with another character than `c`. */
  predicate GoesOn(v: string, c: char) {
    v != "" && if v[0] == '*' then GoesOn(v[1..], c) else v[0] != c
  }

  /** A star between `p` and `v` can be looked at behind a run of characters `c` instead of in front of one of them: the
      star before it takes up the rest of the run. */
  predicate Evades(p: string, c: char, v: string) {
    EndsInRun(p, c) && GoesOn(v, c)
  }

  /** No star of the pattern can be hidden for good. */
  ghost predicate Safe(s: Shape, w: string) {
    forall i, h, j :: 0 <= i < |w| && w[i] == '*' && 0 <= h < j < |KidsOf(s, w[..i])| && KidsOf(s, w[..i])[j] == '*' ==>
      Harmless(s, w[..i], h) || Evades(w[..i], KidsOf(s, w[..i])[h], w[i + 1..])
  }

  // ---------- Patterns without separator marks ----------

  /** A pattern without its stars. */
  function Literals(w: string): string {
    if w == "" then "" else if w[0] == '*' then Literals(w[1..]) else [w[0]] + Literals(w[1..])
  }

  lemma LiteralsStep(w: string)
    requires w != ""
    ensures w == [w[0]] + w[1..]
    ensures Literals(w) == if w[0] == '*' then Literals(w[1..]) else [w[0]] + Literals(w[1..])
  {}

  lemma LiteralsNext(a: char, w: string)
    ensures Literals([a] + w) == if a == '*' then Literals(w) else [a] + Literals(w)
  {
    assert ([a] + w)[1..] == w;
  }

  lemma Prepend(a: char, t: string, u: string)
    ensures [a] + (t + u) == [a] + t + u
  {}

  lemma {:induction false} LiteralsOfParts(p: string, v: string)
    ensures Literals(p + "*" + v) == Literals(p) + Literals(v)
  {
    hide *;
    if p == "" {
      NoLiterals();
      LiteralsNext('*', v);
      assert "" + "*" + v == ['*'] + v && "" + Literals(v) == Literals(v);
    } else {
      PatternStep(p, v);
      LiteralsOfParts(p[1..], v);
      LiteralsStep(p);
      LiteralsNext(p[0], p[1..] + "*" + v);
      Prepend(p[0], Literals(p[1..]), Literals(v));
    }
  }

  lemma NoLiterals()
    ensures Literals("") == ""
  {}

  lemma {:induction false} LiteralsMatch(w: string, rest: string)
    requires rest != ""
    ensures Matches(w, Literals(w) + rest, Literals(w))
    decreases |w|
  {
    if w != "" {
      hide *;
      LiteralsMatch(w[1..], rest);
      LiteralsStep(w);
      var t := Literals(w[1..]);
      if w[0] == '*' {
        MatchesSkipped(w[1..], t + rest, t);
      } else {
        MatchesNext(w[0], w[1..], t + rest, t);
        Prepend(w[0], t, rest);
      }
    }
  }

  /** A match is as long as the literals, and if it is not longer, it is these. */
  lemma {:induction false} MatchIsLong(w: string, sub: string, y: string)
    requires '^' !in w && Matches(w, sub, y)
    ensures |y| >= |Literals(w)| && (|y| == |Literals(w)| ==> y == Literals(w))
    decreases |w|
  {
    if w != "" {
      assert '^' !in w[1..] && w[0] in w;
      if MatchesLiteral(w, sub, y) {
        MatchIsLong(w[1..], sub[1..], y[1..]);
        assert y == [y[0]] + y[1..];
      } else {
        var k :| 0 <= k < |sub| && k <= |y| && y[..k] == sub[..k] && Matches(w[1..], sub[k..], y[k..]);
        MatchIsLong(w[1..], sub[k..], y[k..]);
        assert y[0..] == y;
      }
    }
  }

  /** On a text that is no longer than the literals, every star takes up nothing. */
  lemma {:induction false} StarSees(s: Shape, q: string, p: string, v: string, sub: string, y: string)
    requires '^' !in p && '^' !in v && |y| == |Literals(p)| + |Literals(v)| && Explores(s, q, p + "*" + v, sub, y)
    ensures |Literals(p)| < |sub| && !Shadowed(KidsOf(s, q + p), '*', sub[|Literals(p)|])
    decreases |p|
  {
    if p == "" {
      assert q + p == q && "" + "*" + v == "*" + v;
      ExploresStarChild(s, q, v, sub, y);
    } else {
      PatternStep(p, v);
      PathStep(q, p);
      var w, p1 := p[1..] + "*" + v, p[1..];
      assert '^' !in p1 && '^' !in w;
      LiteralsOfParts(p1, v);
      hide Explores, Shadowed, KidsOf;
      if p[0] != '*' {
        ExploresNext(s, q, p[0], w, sub, y);
        StarSees(s, q + [p[0]], p1, v, sub[1..], y[1..]);
      } else {
        var k := ExploresStarStep(s, q, w, sub, y);
        ExploredMatches(s, q + "*", w, sub[k..], y[k..]);
        MatchIsLong(w, sub[k..], y[k..]);
        assert k == 0 && sub[0..] == sub && y[0..] == y;
        StarSees(s, q + "*", p1, v, sub, y);
      }
    }
  }

  /** Whatever the search does at a star, it takes up a run of characters. */
  lemma ExploresStarStep(s: Shape, q: string, w: string, sub: string, y: string) returns (k: nat)
    requires Explores(s, q, "*" + w, sub, y)
    ensures k <= |sub| && k <= |y| && y[..k] == sub[..k] && Explores(s, q + "*", w, sub[k..], y[k..])
  {
    var w1 := "*" + w;
    assert w1[1..] == w && [w1[0]] == "*";
    hide Shadowed, KidsOf;
    if ExploresLiteral(s, q, w1, sub, y) {
      k := 1;
      assert y[..1] == [y[0]] && sub[..1] == [sub[0]];
    } else {
      k :| 0 <= k < |sub| && k <= |y| && y[..k] == sub[..k] && Explores(s, q + [w1[0]], w1[1..], sub[k..], y[k..]);
    }
  }

  lemma {:induction false} NotGoingOn(v: string, c: char)
    requires !GoesOn(v, c)
    ensures Literals(v) != "" ==> Literals(v)[0] == c
  {
    if v != "" && v[0] == '*' {
      NotGoingOn(v[1..], c);
    }
  }

  lemma {:induction false} GoingOn(v: string, c: char)
    requires GoesOn(v, c)
    ensures Literals(v) != "" && Literals(v)[0] != c
  {
    if v[0] == '*' {
      GoingOn(v[1..], c);
    }
  }

  /** The pattern is missed on its literals if the star is looked at in front of the next of them, or if there is
      none. */
  lemma {:induction false} MissedAtNext(rules: seq<(string, Rule)>, n: nat, p: string, v: string, h: nat, j: nat)
    requires OnePattern(rules) && n < |rules| && rules[n].0 == p + "*" + v && '^' !in p && '^' !in v
    requires var kids := KidsOf(Build(rules), p); h < j < |kids| && kids[j] == '*' && !GoesOn(v, kids[h])
    ensures !Agrees(rules)
  {
    var s, c, w := Build(rules), KidsOf(Build(rules), p)[h], rules[n].0;
    assert Shadowed(KidsOf(s, p), '*', c) && "" + p == p;
    NotGoingOn(v, c);
    hide *;
    var y := Literals(w);
    var url := y + [c];
    LiteralsOfParts(p, v);
    LiteralsMatch(w, [c]);
    forall i | 0 <= i < |url|
      ensures !Explores(s, "", w, url[i..], y)
    {
      NextNotExplored(s, p, v, c, i);
    }
    RuleMissed(rules, n, url, y);
  }

  lemma NextNotExplored(s: Shape, p: string, v: string, c: char, i: nat)
    requires Shadowed(KidsOf(s, p), '*', c) && '^' !in p && '^' !in v && (Literals(v) != "" ==> Literals(v)[0] == c)
    requires i <= |Literals(p) + Literals(v) + [c]|
    ensures !Explores(s, "", p + "*" + v, (Literals(p) + Literals(v) + [c])[i..], Literals(p) + Literals(v))
  {
    hide *;
    var a, b, w := Literals(p), Literals(v), p + "*" + v;
    var y, url := a + b, a + b + [c];
    if Explores(s, "", w, url[i..], y) {
      ExploredMatches(s, "", w, url[i..], y);
      WholeOrNothing(w, url, i, y);
      StarSees(s, "", p, v, url[i..], y);
      assert "" + p == p;
      AtNext(a, b, c, i);
    }
  }

  lemma AtNext(a: string, b: string, c: char, i: nat)
    requires b != "" ==> b[0] == c
    requires var url := a + b + [c];
      i + |a + b| <= |url| && a + b == url[i..i + |a + b|] && |a| < |url[i..]|
    ensures (a + b + [c])[i..][|a|] == c
  {
    var y, url := a + b, a + b + [c];
    if b != "" {
      assert y[|a|] == c && url[i..i + |y|][|a|] == y[|a|];
    }
  }

  /** The literals with one more character between `p` and `v`. */
  lemma {:induction false} ExtraMatches(p: string, v: string, c: char, rest: string)
    requires rest != ""
    ensures Matches(p + "*" + v, Literals(p) + ([c] + (Literals(v) + rest)), Literals(p) + ([c] + Literals(v)))
    decreases |p|
  {
    hide *;
    var tail, text := [c] + (Literals(v) + rest), [c] + Literals(v);
    if p == "" {
      LiteralsMatch(v, rest);
      MatchesTaken(c, v, Literals(v) + rest, Literals(v));
      NoLiterals();
      assert "" + "*" + v == "*" + v && "" + tail == tail && "" + text == text;
    } else {
      ExtraMatches(p[1..], v, c, rest);
      LiteralsStep(p);
      PatternStep(p, v);
      var t := Literals(p[1..]);
      if p[0] == '*' {
        MatchesSkipped(p[1..] + "*" + v, t + tail, t + text);
      } else {
        MatchesNext(p[0], p[1..] + "*" + v, t + tail, t + text);
        Prepend(p[0], t, tail);
        Prepend(p[0], t, text);
      }
    }
  }

  lemma {:induction false} EndsInRunSuffix(p: string, c: char)
    requires p != ""
    ensures EndsInRun(p[1..], c) ==> EndsInRun(p, c)
    ensures p[0] == '*' && (forall k :: 0 <= k < |Literals(p[1..])| ==> Literals(p[1..])[k] == c) ==> EndsInRun(p, c)
    decreases |p|
  {
    if |p| > 1 {
      var n := |p| - 1;
      var init, last := p[1..n], p[n];
      assert p[1..] == init + [last] && p[..n][1..] == init && p[1..][..|p[1..]| - 1] == init;
      EndsInRunSuffix(p[..n], c);
      LiteralsSnoc(init, last);
      if last != '*' {
        assert Literals(p[1..])[|Literals(init)|] == last;
        assert forall k :: 0 <= k < |Literals(init)| ==> Literals(p[1..])[k] == Literals(init)[k];
      }
    }
  }

  lemma {:induction false} LiteralsSnoc(w: string, c: char)
    ensures Literals(w + [c]) == Literals(w) + if c == '*' then "" else [c]
  {
    if w != "" {
      assert (w + [c])[1..] == w[1..] + [c];
      LiteralsSnoc(w[1..], c);
    }
  }

  lemma {:induction false} RunOf(t: string, c: char)
    requires (t + [c])[1..] == t
    ensures forall k :: 0 <= k < |t| ==> t[k] == c
  {
    var k := |t|;
    while k > 0
      invariant 0 <= k <= |t| && forall n :: k <= n < |t| ==> t[n] == c
    {
      k := k - 1;
      assert t[k] == (t + [c])[1..][k] == (t + [c])[k + 1];
    }
  }

  /** With one more character than the literals, the star takes it up, and so it is looked at in front of it, unless an
      earlier star can. */
  lemma {:induction false} ExtraSeen(s: Shape, q: string, p: string, v: string, c: char, sub: string, y: string)
    requires '^' !in p && '^' !in v && c != '*' && y == Literals(p) + ([c] + Literals(v)) && !EndsInRun(p, c)
    requires Explores(s, q, p + "*" + v, sub, y)
    ensures !Shadowed(KidsOf(s, q + p), '*', c)
    decreases |p|
  {
    hide *;
    if p == "" {
      NoLiterals();
      assert q + p == q && "" + "*" + v == "*" + v && y[0] == c;
      ExploresStarChild(s, q, v, sub, y);
      ExploredMatches(s, q, "*" + v, sub, y);
      MatchIsPrefix("*" + v, sub, y);
    } else {
      PatternStep(p, v);
      PathStep(q, p);
      LiteralsStep(p);
      EndsInRunSuffix(p, c);
      var w, p1, t, text := p[1..] + "*" + v, p[1..], Literals(p[1..]), [c] + Literals(v);
      assert '^' !in p1 && '^' !in w;
      if p[0] != '*' {
        ExploresNext(s, q, p[0], w, sub, y);
        Prepend(p[0], t, text);
        assert ([p[0]] + (t + text))[1..] == t + text;
        ExtraSeen(s, q + [p[0]], p1, v, c, sub[1..], y[1..]);
      } else {
        var k := ExploresStarStep(s, q, w, sub, y);
        ExploredMatches(s, q + "*", w, sub[k..], y[k..]);
        MatchIsLong(w, sub[k..], y[k..]);
        LiteralsOfParts(p1, v);
        if k == 0 {
          assert sub[0..] == sub && y[0..] == y;
          ExtraSeen(s, q + "*", p1, v, c, sub, y);
        } else {
          Displaced(t, Literals(v), c);
          RunOf(t, c);
        }
      }
    }
  }

  lemma Displaced(t: string, u: string, c: char)
    requires (t + ([c] + u))[1..] == t + u
    ensures (t + [c])[1..] == t
  {
    var a, b := t + ([c] + u), t + u;
    forall k | 0 <= k < |t|
      ensures (t + [c])[1..][k] == t[k]
    {
      assert a[1..][k] == b[k] && a[k + 1] == (t + [c])[k + 1];
    }
  }

  lemma {:induction false} MissedWithExtra(rules: seq<(string, Rule)>, n: nat, p: string, v: string, h: nat, j: nat)
    requires OnePattern(rules) && n < |rules| && rules[n].0 == p + "*" + v && '^' !in p && '^' !in v
    requires var kids := KidsOf(Build(rules), p);
      h < j < |kids| && kids[j] == '*' && GoesOn(v, kids[h]) && !EndsInRun(p, kids[h])
    ensures !Agrees(rules)
  {
    var s, c, w := Build(rules), KidsOf(Build(rules), p)[h], rules[n].0;
    SiblingsDiffer(rules, p, h, j);
    assert Shadowed(KidsOf(s, p), '*', c) && "" + p == p;
    GoingOn(v, c);
    hide *;
    var a, b := Literals(p), Literals(v);
    var y, url := a + ([c] + b), a + ([c] + (b + [c]));
    ExtraMatches(p, v, c, [c]);
    forall i | 0 <= i < |url|
      ensures !Explores(s, "", w, url[i..], y)
    {
      if Explores(s, "", w, url[i..], y) {
        ExploredMatches(s, "", w, url[i..], y);
        WholeOrNothing(w, url, i, y);
        ExtraSeen(s, "", p, v, c, url[i..], y);
        assert false;
      }
    }
    RuleMissed(rules, n, url, y);
  }

  // ---------- Why other rules are found ----------

  /** The next star of the pattern is looked at in front of a character that does not hide it. */
  ghost predicate Ready(s: Shape, p: string, w: string, sub: string)
    decreases |w|
  {
    w != "" && sub != "" ==>
      if w[0] == '*' then !Shadowed(KidsOf(s, p), '*', sub[0]) else Ready(s, p + [w[0]], w[1..], sub[1..])
  }

  lemma {:induction false} NotReady(s: Shape, p: string, w: string, sub: string) returns (m: nat)
    requires !Ready(s, p, w, sub)
    ensures m < |w| && m < |sub| && w[m] == '*' && '*' !in w[..m] && Shadowed(KidsOf(s, p + w[..m]), '*', sub[m])
    decreases |w|
  {
    hide Shadowed, KidsOf;
    if w[0] == '*' {
      m := 0;
      assert p + w[..0] == p;
    } else {
      var m1 := NotReady(s, p + [w[0]], w[1..], sub[1..]);
      m := m1 + 1;
      assert w[..m] == [w[0]] + w[1..][..m1];
      assert p + [w[0]] + w[1..][..m1] == p + w[..m];
    }
  }

  /** A star can take up `k` characters and let the rest of the pattern match. */
  ghost predicate Choice(w: string, sub: string, y: string, k: nat) {
    k < |sub| && k <= |y| && y[..k] == sub[..k] && Matches(w, sub[k..], y[k..])
  }

  lemma LastChoice(w: string, sub: string, y: string, k0: nat) returns (k: nat)
    requires Choice(w, sub, y, k0)
    ensures Choice(w, sub, y, k) && forall m: nat :: m > k ==> !Choice(w, sub, y, m)
  {
    hide Matches;
    k := |sub|;
    while !Choice(w, sub, y, k)
      invariant k0 <= k <= |sub| && forall m: nat :: m > k ==> !Choice(w, sub, y, m)
      decreases k
    {
      k := k - 1;
    }
  }

  /** A star in front of a character that the pattern does not go on with takes that character up. */
  lemma {:induction false} StarMoves(v: string, c: char, sub: string, y: string)
    requires '^' !in v && c != '*' && GoesOn(v, c) && Matches("*" + v, sub, y) && sub[0] == c
    ensures y != "" && |sub| > 1 && y[0] == c && Matches("*" + v, sub[1..], y[1..])
    decreases |v|
  {
    var w := "*" + v;
    assert w[1..] == v && v[0] in v;
    MatchIsPrefix(w, sub, y);
    assert MatchesStar(w, sub, y);
    var k :| 0 <= k < |sub| && k <= |y| && y[..k] == sub[..k] && Matches(v, sub[k..], y[k..]);
    if k > 0 {
      StarStarts(v, sub[1..], y[1..], k - 1, sub, y);
    } else {
      assert sub[0..] == sub && y[0..] == y;
      if v[0] == '*' {
        assert v == "*" + v[1..];
        StarMoves(v[1..], c, sub, y);
        MatchesSkipped(v, sub[1..], y[1..]);
      } else {
        PlainStart(v, sub, y);
      }
    }
  }

  lemma PlainStart(v: string, sub: string, y: string)
    requires Matches(v, sub, y) && v != "" && v[0] != '*' && v[0] != '^'
    ensures sub != "" && sub[0] == v[0]
  {
    assert MatchesLiteral(v, sub, y);
  }

  lemma StarStarts(v: string, sub1: string, y1: string, k: nat, sub: string, y: string)
    requires sub != "" && y != "" && sub1 == sub[1..] && y1 == y[1..] && k + 1 < |sub| && k + 1 <= |y|
    requires y[..k + 1] == sub[..k + 1] && Matches(v, sub[k + 1..], y[k + 1..])
    ensures Matches("*" + v, sub1, y1)
  {
    var w := "*" + v;
    assert w[1..] == v && sub1[k..] == sub[k + 1..] && y1[k..] == y[k + 1..];
    assert y1[..k] == y[..k + 1][1..] && sub1[..k] == sub[..k + 1][1..];
    assert Matches(w[1..], sub1[k..], y1[k..]);
    assert MatchesStar(w, sub1, y1);
  }

  /** A run of characters `c` in front of the star can start one character later. */
  lemma {:induction false} RunMoves(r: string, v: string, c: char, sub: string, y: string)
    requires '^' !in r && '^' !in v && c != '*' && GoesOn(v, c) && (forall k :: 0 <= k < |r| ==> r[k] == c)
    requires Matches(r + "*" + v, sub, y) && |r| < |sub| && sub[|r|] == c
    ensures y != "" && |sub| > 1 && y[0] == sub[0] == c && Matches(r + "*" + v, sub[1..], y[1..])
    decreases |r|
  {
    var w := r + "*" + v;
    if r == "" {
      assert w == "*" + v;
      StarMoves(v, c, sub, y);
    } else {
      PatternStep(r, v);
      var w1 := r[1..] + "*" + v;
      assert w[0] == r[0] == c && w[1..] == w1 && r[0] in r;
      assert MatchesLiteral(w, sub, y);
      RunMoves(r[1..], v, c, sub[1..], y[1..]);
      hide Matches, GoesOn;
      MatchesNext(c, w1, sub[1..][1..], y[1..][1..]);
      assert [c] + sub[1..][1..] == sub[1..] && [c] + y[1..][1..] == y[1..];
    }
  }

  lemma {:induction false} RunHasStar(p: string, c: char)
    requires EndsInRun(p, c)
    ensures '*' in p
  {
    if p[|p| - 1] != '*' {
      RunHasStar(p[..|p| - 1], c);
    }
  }

  /** What follows the last star of a path that ends in a run is the run. */
  lemma {:induction false} RunOnly(p: string, r: string, c: char)
    requires EndsInRun(p + "*" + r, c) && '*' !in r
    ensures forall k :: 0 <= k < |r| ==> r[k] == c
    decreases |r|
  {
    if r != "" {
      var n := |r| - 1;
      var q := p + "*" + r;
      assert r[n] in r && q[|q| - 1] == r[n] && q[..|q| - 1] == p + "*" + r[..n];
      RunOnly(p, r[..n], c);
      assert forall k :: 0 <= k < n ==> r[k] == r[..n][k];
    }
  }

  lemma {:induction false} NoMarkBehind(p: string)
    requires '^' !in p
    ensures !AfterMark(p)
  {
    if p != "" && p[|p| - 1] == '*' {
      NoMarkBehind(p[..|p| - 1]);
    }
  }

  /** A safe star that is hidden can be looked at elsewhere. */
  lemma {:induction false} HiddenEvades(s: Shape, w: string, i: nat, c: char)
    requires WellFormed(s) && Safe(s, w) && '^' !in w && i < |w| && w[i] == '*' && Shadowed(KidsOf(s, w[..i]), '*', c)
    ensures c != '*' && Evades(w[..i], c, w[i + 1..])
  {
    var kids := KidsOf(s, w[..i]);
    var h, j :| 0 <= h < j < |kids| && kids[h] == c && kids[j] == '*';
    NoMarkBehind(w[..i]);
    hide Evades;
    assert Harmless(s, w[..i], h) || Evades(w[..i], KidsOf(s, w[..i])[h], w[i + 1..]);
  }

  /** If the star takes up as much as it can, the next star is ready. */
  lemma {:induction false} NextIsReady(s: Shape, p: string, w: string, sub: string, y: string, k: nat)
    requires WellFormed(s) && Safe(s, p + "*" + w) && '^' !in p + "*" + w
    requires Choice(w, sub, y, k) && forall m: nat :: m > k ==> !Choice(w, sub, y, m)
    ensures Ready(s, p + "*", w, sub[k..])
  {
    var q := p + "*";
    if !Ready(s, q, w, sub[k..]) {
      var m := NotReady(s, q, w, sub[k..]);
      var path, i, c := q + w, |q| + m, sub[k..][m];
      assert path[..i] == q + w[..m] && path[i] == '*' && path[i + 1..] == w[m + 1..];
      assert p + "*" + w == path;
      HiddenEvades(s, path, i, c);
      RunOnly(p, w[..m], c);
      MarkFreeParts(path, i);
      MarkFreeParts(w, m);
      SplitAtStar(w, m);
      hide *;
      RunAgain(w[..m], w[m + 1..], c, sub, y, k, p);
    }
  }

  lemma SplitAtStar(w: string, m: nat)
    requires m < |w| && w[m] == '*'
    ensures w == w[..m] + "*" + w[m + 1..]
  {}

  lemma MarkFreeParts(path: string, i: nat)
    requires '^' !in path && i < |path|
    ensures '^' !in path[..i] && '^' !in path[i + 1..]
  {}

  lemma RunAgain(r: string, v: string, c: char, sub: string, y: string, k: nat, p: string)
    requires '^' !in r && '^' !in v && c != '*' && Evades(p + "*" + r, c, v)
    requires forall n :: 0 <= n < |r| ==> r[n] == c
    requires Choice(r + "*" + v, sub, y, k) && |r| < |sub[k..]| && sub[k..][|r|] == c
    ensures Choice(r + "*" + v, sub, y, k + 1)
  {
    hide Matches;
    RunMoves(r, v, c, sub[k..], y[k..]);
    assert sub[k..][1..] == sub[k + 1..] && y[k..][1..] == y[k + 1..];
    assert y[..k + 1] == y[..k] + [y[k]] && sub[..k + 1] == sub[..k] + [sub[k]];
  }

  /** The search explores every match of a safe pattern without separator marks. */
  lemma {:induction false} SafeExplored(s: Shape, p: string, w: string, sub: string, y: string)
    requires WellFormed(s) && p + w in s && Safe(s, p + w) && '^' !in p + w
    requires Matches(w, sub, y) && Ready(s, p, w, sub)
    ensures Explores(s, p, w, sub, y)
    decreases |w|
  {
    if w == "" {
      assert p + w == p;
    } else {
      PathToNode(s, p, w);
      var a, w1 := w[0], w[1..];
      assert p + w == p + [a] + w1 && w == [a] + w1 && a in p + w;
      hide WellFormed, Safe;
      if a != '*' {
        PlainStart(w, sub, y);
        SiblingFirst(s, p, a);
        assert MatchesLiteral(w, sub, y);
        hide Shadowed;
        SafeExplored(s, p + [a], w1, sub[1..], y[1..]);
      } else {
        assert p + [a] == p + "*";
        StarChoice(w, sub, y);
        if k0: nat :| Choice(w1, sub, y, k0) {
          var k := LastChoice(w1, sub, y, k0);
          NextIsReady(s, p, w1, sub, y, k);
          hide Shadowed, Ready;
          SafeExplored(s, p + [a], w1, sub[k..], y[k..]);
          assert ExploresStar(s, p, w, sub, y);
        } else {
          SafeExplored(s, p + [a], w1, sub[1..], y[1..]);
        }
      }
    }
  }

  lemma SiblingFirst(s: Shape, p: string, a: char)
    requires WellFormed(s)
    ensures !Shadowed(KidsOf(s, p), a, a)
  {}

  /** A star that has no other choice matches itself at the end of the text. */
  lemma StarChoice(w: string, sub: string, y: string)
    requires w != "" && w[0] == '*' && Matches(w, sub, y)
    ensures (exists k: nat :: Choice(w[1..], sub, y, k)) || (MatchesLiteral(w, sub, y) && w[1..] == "")
  {
    if MatchesLiteral(w, sub, y) {
      if w[1..] != "" {
        MatchNotEmpty(w[1..], sub[1..], y[1..]);
        assert y[..1] == [y[0]] && sub[..1] == [sub[0]];
        assert Choice(w[1..], sub, y, 1);
      }
    } else {
      assert MatchesStar(w, sub, y);
      var k :| 0 <= k < |sub| && k <= |y| && y[..k] == sub[..k] && Matches(w[1..], sub[k..], y[k..]);
      assert Choice(w[1..], sub, y, k);
    }
  }

  lemma {:induction false} FirstIsReady(s: Shape, w: string, sub: string)
    requires WellFormed(s) && Safe(s, w) && '^' !in w
    ensures Ready(s, "", w, sub)
  {
    if !Ready(s, "", w, sub) {
      var m := NotReady(s, "", w, sub);
      assert "" + w[..m] == w[..m];
      HiddenEvades(s, w, m, sub[m]);
      RunHasStar(w[..m], sub[m]);
      assert false;
    }
  }

  /** The search explores every match of a safe pattern that has one star or no separator marks. */
  lemma {:induction false} SafeRuleExplored(s: Shape, w: string, url: string)
    requires WellFormed(s) && SeparatorsFirst(s) && w in s && Safe(s, w) && (OneStar(w) || '^' !in w)
    ensures ExploresMatches(s, w, url)
  {
    if '^' !in w {
      forall i, y | 0 <= i < |url| && Matches(w, url[i..], y)
        ensures Explores(s, "", w, url[i..], y)
      {
        FirstIsReady(s, w, url[i..]);
        assert "" + w == w;
        hide WellFormed, Safe, Matches, Explores, Ready;
        SafeExplored(s, "", w, url[i..], y);
      }
    } else {
      forall i, h, j | 0 <= i < |w| && w[i] == '*' && 0 <= h < j < |KidsOf(s, w[..i])| && KidsOf(s, w[..i])[j] == '*'
        ensures Harmless(s, w[..i], h)
      {
        NotInRun(w, i, KidsOf(s, w[..i])[h]);
      }
      assert PathInView(s, w, url);
      PathExplores(s, w, url);
    }
  }

  /** No star comes before the only one. */
  lemma NotInRun(w: string, i: nat, c: char)
    requires OneStar(w) && i < |w| && w[i] == '*'
    ensures '*' !in w[..i] && !EndsInRun(w[..i], c)
  {
    if EndsInRun(w[..i], c) {
      RunHasStar(w[..i], c);
    }
  }
}
