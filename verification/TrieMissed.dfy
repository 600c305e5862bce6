/** Rules that the search of a trie misses because a star of theirs is behind a sibling. */
module TrieMissed {
  import opened TrieShape
  import opened TrieSearch
  import opened TrieHits

  /** For every address and every test, the search finds exactly what the scan finds. */
  ghost predicate Agrees(rules: seq<(string, Rule)>) {
    forall url, applies: Test :: UrlHits(Build(rules), url, applies) == Listed(rules, url, applies)
  }

  /** A rule's line determines its pattern. */
  ghost predicate OnePattern(rules: seq<(string, Rule)>) {
    forall m, n :: 0 <= m < |rules| && 0 <= n < |rules| && rules[m].1 == rules[n].1 ==> rules[m].0 == rules[n].0
  }

  // ---------- Tests that single out a text ----------

  /** A test that admits a single text. */
  function Only(y: string): Test {
    (r, t) => t == y
  }

  /** A rule is missed on an address if the search, wherever it starts, does not explore the text that its pattern
      matches at the start. */
  lemma {:induction false} RuleMissed(rules: seq<(string, Rule)>, n: nat, url: string, y: string)
    requires OnePattern(rules) && n < |rules| && url != "" && Matches(rules[n].0, url, y)
    requires forall i :: 0 <= i < |url| ==> !Explores(Build(rules), "", rules[n].0, url[i..], y)
    ensures rules[n].1 in Listed(rules, url, Only(y)) && rules[n].1 !in UrlHits(Build(rules), url, Only(y))
    ensures !Agrees(rules)
  {
    var s, r := Build(rules), rules[n].1;
    BuildSound(rules);
    hide Build, Matches, Explores;
    assert url[0..] == url && AppliesAt(rules, url, Only(y), n, 0, y);
    forall i, w, z | 0 <= i < |url|
      ensures !HitBy(s, "", url[i..], "", Only(y), r, w, z)
    {
      assert "" + w == w && "" + z == z;
      if r in RulesOf(s, w) {
        assert (w, r) in rules;
        SamePattern(rules, n, w);
      }
    }
  }

  lemma {:induction false} SamePattern(rules: seq<(string, Rule)>, n: nat, w: string)
    requires OnePattern(rules) && n < |rules| && (w, rules[n].1) in rules
    ensures rules[n].0 == w
  {
    var m :| 0 <= m < |rules| && rules[m] == (w, rules[n].1);
    assert rules[m].0 == w && rules[m].1 == rules[n].1;
  }

  // ---------- Patterns with one star ----------

  lemma {:induction false} SelfMatch(v: string)
    ensures Matches(v, v, v)
    decreases |v|
  {
    if v != "" {
      SelfMatch(v[1..]);
      assert MatchesLiteral(v, v, v);
    }
  }

  /** A text for the part of a pattern in front of a star that is behind a sibling for `c`. */
  function Lead(p: string, c: char): string {
    if c == '^' then p else PlainText(p)
  }

  /** The text itself: what leads to the star, the sibling's character, the rest of the pattern. */
  function MissedText(p: string, c: char, v: string): string {
    Lead(p, c) + [c] + v
  }

  lemma MissedTextStep(p: string, c: char, v: string)
    requires p != "" && '*' !in p
    ensures '*' !in p[1..] && MissedText("", c, v) == [c] + v
    ensures c == '^' || PlainCount(p) > 0 ==> MissedText(p, c, v) == [p[0]] + MissedText(p[1..], c, v)
    ensures c != '^' && PlainCount(p) == 0 ==>
      MissedText(p, c, v) == [c] + v == MissedText(p[1..], c, v) && p[0] == '^' && PlainCount(p[1..]) == 0
    ensures p[0] == '^' ==> PlainCount(p[1..]) == PlainCount(p)
  {
    assert p == [p[0]] + p[1..];
    if c == '^' {
      PrependTwice(p[0], p[1..], [c], v);
    } else {
      PrependTwice(p[0], PlainText(p[1..]), [c], v);
      hide IsSeparator;
    }
  }

  lemma PrependTwice(a: char, t: string, u: string, v: string)
    ensures ([a] + t) + u + v == [a] + (t + u + v)
  {}

  lemma PatternStep(p: string, v: string)
    requires p != ""
    ensures p + "*" + v == [p[0]] + (p[1..] + "*" + v)
  {
    PrependTwice(p[0], p[1..], "*", v);
    assert p == [p[0]] + p[1..];
  }

  lemma MatchesNext(a: char, w: string, sub: string, y: string)
    requires Matches(w, sub, y)
    ensures Matches([a] + w, [a] + sub, [a] + y)
  {
    var w1, sub1, y1 := [a] + w, [a] + sub, [a] + y;
    assert w1[1..] == w && sub1[1..] == sub && y1[1..] == y;
    assert MatchesLiteral(w1, sub1, y1);
  }

  lemma MatchesMark(w: string, sub: string, y: string)
    requires Matches(w, sub, y) && sub != "" && IsSeparator(sub[0])
    ensures Matches("^" + w, sub, y)
  {
    assert ("^" + w)[1..] == w;
    hide IsSeparator;
  }

  lemma MatchesTaken(c: char, w: string, sub: string, y: string)
    requires Matches(w, sub, y) && sub != ""
    ensures Matches("*" + w, [c] + sub, [c] + y)
  {
    var w1, sub1, y1 := "*" + w, [c] + sub, [c] + y;
    assert w1[1..] == w && sub1[1..] == sub && y1[1..] == y && y1[..1] == sub1[..1];
    assert Matches(w1[1..], sub1[1..], y1[1..]);
    assert MatchesStar(w1, sub1, y1);
  }

  lemma MatchesSkipped(w: string, sub: string, y: string)
    requires Matches(w, sub, y) && sub != ""
    ensures Matches("*" + w, sub, y)
  {
    var w1 := "*" + w;
    assert w1[1..] == w && sub[0..] == sub && y[0..] == y && y[..0] == sub[..0];
    assert Matches(w1[1..], sub[0..], y[0..]);
    assert MatchesStar(w1, sub, y);
  }

  lemma {:induction false} LeadMatches(p: string, v: string, c: char)
    requires '*' !in p && MarksMatch(p, c) && v != ""
    ensures Matches(p + "*" + v, MissedText(p, c, v), MissedText(p, c, v))
    decreases |p|
  {
    if p == "" {
      SelfMatch(v);
      MatchesTaken(c, v, v, v);
      assert "" + "*" + v == "*" + v && MissedText("", c, v) == [c] + v;
    } else {
      AfterMarkSuffix(p);
      hide Matches, MissedText, AfterMark, IsSeparator, PlainCount;
      PatternStep(p, v);
      MissedTextStep(p, c, v);
      LeadMatches(p[1..], v, c);
      var w, t := p[1..] + "*" + v, MissedText(p[1..], c, v);
      if c == '^' || PlainCount(p) > 0 {
        MatchesNext(p[0], w, t, t);
      } else {
        MatchesMark(w, t, t);
      }
    }
  }

  /** What the search does at a child that is no star. */
  lemma ExploresNext(s: Shape, q: string, a: char, w: string, sub: string, y: string)
    requires Explores(s, q, [a] + w, sub, y) && a != '*'
    ensures sub != "" && !Shadowed(KidsOf(s, q), a, sub[0])
    ensures || (sub[0] == a && y != "" && Explores(s, q + [a], w, sub[1..], y[1..]))
            || (a == '^' && Explores(s, q + [a], w, sub, y))
  {
    assert ([a] + w)[1..] == w;
    hide Shadowed, KidsOf, IsSeparator;
  }

  lemma ExploresStarChild(s: Shape, q: string, w: string, sub: string, y: string)
    requires Explores(s, q, "*" + w, sub, y)
    ensures sub != "" && !Shadowed(KidsOf(s, q), '*', sub[0])
  {}

  function Marks(m: nat): string {
    seq(m, _ => '^')
  }

  lemma MarksStep(m: nat, t: string)
    ensures m > 0 ==> Marks(m) + t != "" && (Marks(m) + t)[0] == '^' && (Marks(m) + t)[1..] == Marks(m - 1) + t
    ensures Marks(0) + t == t
    ensures (Marks(m) + (['^'] + t))[0] == '^' && (Marks(m) + (['^'] + t))[1..] == Marks(m) + t
    ensures Marks(m) + (['^'] + t) == Marks(m + 1) + t
  {
    assert Marks(m + 1) == Marks(m) + ['^'] == ['^'] + Marks(m);
  }

  /** The search of the text comes to the star only in front of `c`; separator marks that matched the empty text leave
      as many marks of the text behind. */
  lemma {:induction false} LeadHidden(s: Shape, q: string, p: string, v: string, c: char, m: nat, y: string)
    requires '*' !in p && c != '*' && Shadowed(KidsOf(s, q + p), '*', c)
    requires c == '^' || m == 0 || PlainCount(p) > 0
    ensures !Explores(s, q, p + "*" + v, Marks(m) + MissedText(p, c, v), y)
    decreases |p|
  {
    assert PlainCount("") == 0;
    hide *;
    if p == "" {
      assert q + p == q;
      LeadAtStar(s, q, v, c, m, y);
    } else {
      MissedTextStep(p, c, v);
      PatternStep(p, v);
      PathStep(q, p);
      var q1, p1, t1 := q + [p[0]], p[1..], MissedText(p[1..], c, v);
      if p[0] != '^' {
        PlainFirst(p);
        if m == 0 && y != "" {
          LeadHidden(s, q1, p1, v, c, 0, y[1..]);
        }
        PlainNotExplored(s, q, p[0], p1 + "*" + v, m, t1, y);
      } else {
        if y != "" && (c == '^' || PlainCount(p) > 0) {
          LeadHidden(s, q1, p1, v, c, m, y[1..]);
        }
        LeadHidden(s, q1, p1, v, c, if c == '^' || PlainCount(p) > 0 then m + 1 else 0, y);
        if c == '^' || PlainCount(p) > 0 {
          MarkNotExplored(s, q, p1 + "*" + v, m, t1, y);
        } else {
          NoMarkNotExplored(s, q, p1 + "*" + v, c, v, y);
        }
      }
    }
  }

  lemma PathStep(q: string, p: string)
    requires p != ""
    ensures q + p == q + [p[0]] + p[1..] && p[0] in p
  {}

  lemma PlainNotExplored(s: Shape, q: string, a: char, w: string, m: nat, t: string, y: string)
    requires a != '*' && a != '^'
    requires m == 0 && y != "" ==> !Explores(s, q + [a], w, Marks(0) + t, y[1..])
    ensures !Explores(s, q, [a] + w, Marks(m) + ([a] + t), y)
  {
    hide *;
    MarksStep(m, [a] + t);
    MarksStep(0, t);
    assert ([a] + t)[1..] == t;
    if Explores(s, q, [a] + w, Marks(m) + ([a] + t), y) {
      ExploresNext(s, q, a, w, Marks(m) + ([a] + t), y);
    }
  }

  lemma MarkNotExplored(s: Shape, q: string, w: string, m: nat, t: string, y: string)
    requires y != "" ==> !Explores(s, q + ['^'], w, Marks(m) + t, y[1..])
    requires !Explores(s, q + ['^'], w, Marks(m + 1) + t, y)
    ensures !Explores(s, q, ['^'] + w, Marks(m) + (['^'] + t), y)
  {
    hide *;
    MarksStep(m, t);
    if Explores(s, q, ['^'] + w, Marks(m) + (['^'] + t), y) {
      ExploresNext(s, q, '^', w, Marks(m) + (['^'] + t), y);
    }
  }

  lemma NoMarkNotExplored(s: Shape, q: string, w: string, c: char, v: string, y: string)
    requires c != '^' && !Explores(s, q + ['^'], w, Marks(0) + ([c] + v), y)
    ensures !Explores(s, q, ['^'] + w, Marks(0) + ([c] + v), y)
  {
    hide *;
    MarksStep(0, [c] + v);
    if Explores(s, q, ['^'] + w, Marks(0) + ([c] + v), y) {
      ExploresNext(s, q, '^', w, Marks(0) + ([c] + v), y);
    }
  }

  lemma PlainFirst(p: string)
    requires p != "" && p[0] != '^' && p[0] != '*'
    ensures PlainCount(p) > 0
  {}

  lemma MissedTextAtStar(c: char, v: string)
    ensures MissedText("", c, v) == [c] + v && "" + "*" + v == "*" + v
  {
    assert Lead("", c) == "" && "" + [c] == [c] && "" + "*" == "*";
  }

  lemma LeadAtStar(s: Shape, q: string, v: string, c: char, m: nat, y: string)
    requires Shadowed(KidsOf(s, q), '*', c) && (c == '^' || m == 0)
    ensures !Explores(s, q, "" + "*" + v, Marks(m) + MissedText("", c, v), y)
  {
    hide *;
    MissedTextAtStar(c, v);
    MarksStep(m, [c] + v);
    var sub := Marks(m) + ([c] + v);
    assert sub[0] == c;
    if Explores(s, q, "*" + v, sub, y) {
      ExploresStarChild(s, q, v, sub, y);
    }
  }

  lemma WholeOrNothing(w: string, url: string, i: nat, y: string)
    requires i <= |url| && Matches(w, url[i..], y)
    ensures i + |y| <= |url| && y == url[i..i + |y|]
  {
    MatchIsPrefix(w, url[i..], y);
    hide Matches;
    var rest := url[i..];
    assert rest[..|y|] == url[i..i + |y|];
  }

  /** A rule is missed if its first star is behind a sibling that is not harmless. */
  lemma {:induction false} FirstStarMissed(rules: seq<(string, Rule)>, n: nat, p: string, v: string, h: nat, j: nat)
    requires OnePattern(rules) && n < |rules| && rules[n].0 == p + "*" + v && '*' !in p && v != ""
    requires var kids := KidsOf(Build(rules), p); h < j < |kids| && kids[j] == '*'
    requires !Harmless(Build(rules), p, h)
    ensures var url := MissedText(p, KidsOf(Build(rules), p)[h], v);
      && rules[n].1 in Listed(rules, url, Only(url)) && rules[n].1 !in UrlHits(Build(rules), url, Only(url))
      && !Agrees(rules)
  {
    var s, c, w := Build(rules), KidsOf(Build(rules), p)[h], rules[n].0;
    var url := MissedText(p, c, v);
    SiblingsDiffer(rules, p, h, j);
    LeadMatches(p, v, c);
    MarksStep(0, url);
    assert Shadowed(KidsOf(s, p), '*', c) && "" + p == p && |url| > 0;
    hide *;
    forall i | 0 <= i < |url|
      ensures !Explores(s, "", w, url[i..], url)
    {
      if Explores(s, "", w, url[i..], url) {
        ExploredMatches(s, "", w, url[i..], url);
        WholeOrNothing(w, url, i, url);
        assert url[0..] == url;
        LeadHidden(s, "", p, v, c, 0, url);
      }
    }
    RuleMissed(rules, n, url, url);
  }

  lemma SiblingsDiffer(rules: seq<(string, Rule)>, p: string, h: nat, j: nat)
    requires h < j < |KidsOf(Build(rules), p)|
    ensures KidsOf(Build(rules), p)[h] != KidsOf(Build(rules), p)[j]
  {
    BuildSound(rules);
    hide Build, KidsOf;
  }

  lemma {:induction false} StarLeavesSome(w: string, sub: string, y: string)
    requires Matches(w + "*", sub, y) && sub[|sub| - 1] != '*'
    ensures |y| < |sub|
    decreases |w|
  {
    var v := w + "*";
    if w != "" {
      assert v[0] == w[0] && v[1..] == w[1..] + "*";
      if MatchesLiteral(v, sub, y) {
        MatchNotEmpty(v[1..], sub[1..], y[1..]);
        StarLeavesSome(w[1..], sub[1..], y[1..]);
      } else if MatchesStar(v, sub, y) {
        var k :| 0 <= k < |sub| && k <= |y| && y[..k] == sub[..k] && Matches(v[1..], sub[k..], y[k..]);
        StarLeavesSome(w[1..], sub[k..], y[k..]);
      } else {
        StarLeavesSome(w[1..], sub, y);
      }
    } else {
      StarAlone(v, sub, y);
    }
  }

  lemma StarAlone(w: string, sub: string, y: string)
    requires w == "*" && Matches(w, sub, y)
    ensures |y| < |sub| || (|y| == |sub| && sub[|sub| - 1] == '*')
  {
    assert w[1..] == "";
    if MatchesLiteral(w, sub, y) {
      assert Matches("", sub[1..], y[1..]);
    } else {
      var k :| 0 <= k < |sub| && k <= |y| && y[..k] == sub[..k] && Matches(w[1..], sub[k..], y[k..]);
      assert y[k..] == "";
    }
  }

  /** A rule is missed if its pattern ends in a star behind a sibling that is not harmless. */
  lemma {:induction false} LastStarMissed(rules: seq<(string, Rule)>, n: nat, p: string, h: nat, j: nat)
    requires OnePattern(rules) && n < |rules| && rules[n].0 == p + "*"
    requires var kids := KidsOf(Build(rules), p); h < j < |kids| && kids[j] == '*'
    requires !Harmless(Build(rules), p, h)
    ensures !Agrees(rules)
  {
    var s, c, w, y := Build(rules), KidsOf(Build(rules), p)[h], rules[n].0, PlainText(p);
    var url := y + [c];
    SiblingsDiffer(rules, p, h, j);
    StarMissed(s, p, h, j);
    hide *;
    forall i | 0 <= i < |url|
      ensures !Explores(s, "", w, url[i..], y)
    {
      assert url[0..] == url;
      if Explores(s, "", w, url[i..], y) {
        ExploredMatches(s, "", w, url[i..], y);
        StarLeavesSome(p, url[i..], y);
      }
    }
    RuleMissed(rules, n, url, y);
  }
}
