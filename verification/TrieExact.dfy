/** When the search of a rule list's trie finds, on every address, exactly what a scan over the list finds. */
module TrieExact {
  import opened TrieShape
  import opened TrieSearch
  import opened TrieHits
  import opened TrieMissed
  import opened TrieRuns

  lemma {:induction false} UnsafeMissed(rules: seq<(string, Rule)>, n: nat)
    requires OnePattern(rules) && n < |rules| && (OneStar(rules[n].0) || '^' !in rules[n].0)
    requires !Safe(Build(rules), rules[n].0)
    ensures !Agrees(rules)
  {
    var s, w := Build(rules), rules[n].0;
    hide Build, Agrees, OnePattern, Harmless;
    var i, h, j :| 0 <= i < |w| && w[i] == '*' && 0 <= h < j < |KidsOf(s, w[..i])| && KidsOf(s, w[..i])[j] == '*'
      && !Harmless(s, w[..i], h) && !Evades(w[..i], KidsOf(s, w[..i])[h], w[i + 1..]);
    var p, v := w[..i], w[i + 1..];
    SplitAtStar(w, i);
    if '^' !in w {
      MarkFreeParts(w, i);
      if GoesOn(v, KidsOf(s, p)[h]) {
        MissedWithExtra(rules, n, p, v, h, j);
      } else {
        MissedAtNext(rules, n, p, v, h, j);
      }
    } else {
      NotInRun(w, i, '*');
      if v == "" {
        assert w == p + "*";
        LastStarMissed(rules, n, p, h, j);
      } else {
        FirstStarMissed(rules, n, p, v, h, j);
      }
    }
  }

  /** For patterns that have at most one star or no separator marks, the search finds on every address what the scan
      finds if and only if every pattern is safe. */
  lemma {:induction false} AgreesExactly(rules: seq<(string, Rule)>)
    requires OnePattern(rules) && forall n :: 0 <= n < |rules| ==> OneStar(rules[n].0) || '^' !in rules[n].0
    ensures Agrees(rules) <==> forall n :: 0 <= n < |rules| ==> Safe(Build(rules), rules[n].0)
  {
    var s := Build(rules);
    BuildSound(rules);
    hide Build, Safe, OneStar, WellFormed, SeparatorsFirst;
    if n :| 0 <= n < |rules| && !Safe(s, rules[n].0) {
      UnsafeMissed(rules, n);
    } else {
      forall url, applies: Test
        ensures UrlHits(s, url, applies) == Listed(rules, url, applies)
      {
        forall n | 0 <= n < |rules|
          ensures ExploresMatches(s, rules[n].0, url)
        {
          PatternIsNode(rules, n);
          SafeRuleExplored(s, rules[n].0, url);
        }
        ExploringIsComplete(rules, url, applies);
      }
    }
  }

  lemma {:induction false} PathNodes(s: Shape, pattern: string, q: string)
    requires q in WithPath(s, pattern)
    ensures q in s || q <= pattern
  {
    if pattern != "" {
      var n := |pattern| - 1;
      var p, c := pattern[..n], pattern[n];
      assert pattern == p + [c];
      ChildNodes(WithPath(s, p), p, c, q);
      hide WithChild;
      if q in WithPath(s, p) {
        PathNodes(s, p, q);
      }
    }
  }

  lemma ChildNodes(s: Shape, p: string, c: char, q: string)
    requires q in WithChild(s, p, c)
    ensures q in s || q == p || q == p + [c]
  {}

  /** Every node but the root lies on the path of a pattern. */
  lemma {:induction false} NodeOfPattern(rules: seq<(string, Rule)>, q: string)
    requires q in Build(rules) && q != ""
    ensures exists n :: 0 <= n < |rules| && q <= rules[n].0
  {
    if rules != [] {
      var init, m := rules[..|rules| - 1], |rules| - 1;
      var (pattern, rule) := rules[m];
      hide WithPath;
      if q in WithPath(Build(init), pattern) && q !in Build(init) {
        PathNodes(Build(init), pattern, q);
        assert q <= rules[m].0;
      } else if q in Build(init) {
        NodeOfPattern(init, q);
        var n :| 0 <= n < |init| && q <= init[n].0;
        assert rules[n] == init[n];
      } else {
        assert q == pattern;
        assert q <= rules[m].0;
      }
    }
  }

  /** For patterns with at most one star, the search finds on every address what the scan finds if and only if every
      star comes first among its siblings, harmless ones aside. */
  lemma {:induction false} OneStarExactly(rules: seq<(string, Rule)>)
    requires OnePattern(rules) && forall n :: 0 <= n < |rules| ==> OneStar(rules[n].0)
    ensures Agrees(rules) <==> StarsHarmless(Build(rules))
  {
    AgreesExactly(rules);
    var s := Build(rules);
    BuildSound(rules);
    hide Build, Agrees, Harmless, OneStar;
    if Agrees(rules) {
      forall p, h, j | 0 <= h < j < |KidsOf(s, p)| && KidsOf(s, p)[j] == '*'
        ensures Harmless(s, p, h)
      {
        assert p + ['*'] in s;
        NodeOfPattern(rules, p + ['*']);
        hide WellFormed, SeparatorsFirst, Safe, StarsHarmless, KidsOf;
        var n :| 0 <= n < |rules| && p + ['*'] <= rules[n].0;
        assert Safe(s, rules[n].0) && OneStar(rules[n].0);
        SafeIsHarmless(s, rules[n].0, p, h, j);
      }
    }
  }

  lemma SafeIsHarmless(s: Shape, w: string, p: string, h: nat, j: nat)
    requires Safe(s, w) && OneStar(w) && p + ['*'] <= w && h < j < |KidsOf(s, p)| && KidsOf(s, p)[j] == '*'
    ensures Harmless(s, p, h)
  {
    hide Harmless, OneStar, KidsOf;
    var i := |p|;
    assert w[..i] == p && w[i] == '*';
    NotInRun(w, i, KidsOf(s, p)[h]);
  }

  /** Beyond one star, a rule may be found although a star of it is behind a sibling that is not harmless: with the
      patterns "a*bb" and "a*b*d", the first star of the second takes up a run of "b" as far as its last one. */
  lemma {:induction false} SecondStarEvades(first: Rule, second: Rule)
    requires first != second
    ensures var rules := [("a*bb", first), ("a*b*d", second)];
      Agrees(rules) && !StarsHarmless(Build(rules))
  {
    var rules := [("a*bb", first), ("a*b*d", second)];
    var s := Build(rules);
    TwoStarKids(first, second);
    hide Build, Agrees, KidsOf;
    forall n | 0 <= n < 2
      ensures Safe(s, rules[n].0)
    {
      SafeHere(s, rules[n].0);
    }
    AgreesExactly(rules);
    NotHarmless(s);
  }

  lemma NotHarmless(s: Shape)
    requires KidsOf(s, "a*b") == ['b', '*']
    ensures !StarsHarmless(s)
  {
    var p := "a*b";
    assert !Harmless(s, p, 0) by {
      assert p[|p| - 1] == 'b';
    }
    assert KidsOf(s, p)[1] == '*';
  }

  lemma SafeHere(s: Shape, w: string)
    requires KidsOf(s, "a") == ['*'] && KidsOf(s, "a*b") == ['b', '*'] && (w == "a*bb" || w == "a*b*d")
    ensures Safe(s, w)
  {
    forall i, h, j | 0 <= i < |w| && w[i] == '*' && 0 <= h < j < |KidsOf(s, w[..i])| && KidsOf(s, w[..i])[j] == '*'
      ensures Evades(w[..i], KidsOf(s, w[..i])[h], w[i + 1..])
    {
      assert w[..1] == "a" && w[..3] == "a*b";
      assert i == 3 && w[i + 1..] == "d" && KidsOf(s, w[..i])[h] == 'b';
      assert "a*b"[..2] == "a*";
    }
  }

  lemma TwoStarKids(first: Rule, second: Rule)
    ensures var s := Build([("a*bb", first), ("a*b*d", second)]);
      KidsOf(s, "a") == ['*'] && KidsOf(s, "a*b") == ['b', '*']
  {
    BuildUnfold([], "a*bb", first);
    BuildUnfold([("a*bb", first)], "a*b*d", second);
    hide *;
    assert [] + [("a*bb", first)] == [("a*bb", first)];
    assert [("a*bb", first)] + [("a*b*d", second)] == [("a*bb", first), ("a*b*d", second)];
    OneRuleKids(first);
    OtherRuleKids(Insert(EMPTY, "a*bb", first), second);
  }

  lemma OneRuleKids(first: Rule)
    ensures var s := Insert(EMPTY, "a*bb", first);
      KidsOf(s, "") == ['a'] && KidsOf(s, "a") == ['*'] && KidsOf(s, "a*") == ['b'] && KidsOf(s, "a*b") == ['b']
  {
    EmptySound();
    hide *;
    var s1, s2, s3 := WithPath(EMPTY, "a"), WithPath(EMPTY, "a*"), WithPath(EMPTY, "a*b");
    assert "" + ['a'] == "a" && "a" + ['*'] == "a*" && "a*" + ['b'] == "a*b" && "a*b" + ['b'] == "a*bb";
    WithPathUnfold(EMPTY, "", 'a');
    WithPathUnfold(EMPTY, "a", '*');
    WithPathUnfold(EMPTY, "a*", 'b');
    WithPathUnfold(EMPTY, "a*b", 'b');
    forall p
      ensures KidsOf(Insert(EMPTY, "a*bb", first), p) == KidsOf(WithPath(EMPTY, "a*bb"), p)
    {
      InsertKids(EMPTY, "a*bb", first, p);
    }
    forall p | p == "" || p == "a" || p == "a*" || p == "a*b"
      ensures KidsOf(WithPath(EMPTY, "a*bb"), p) ==
        if p == "" then ['a'] else if p == "a" then ['*'] else ['b']
    {
      WithChildKids(EMPTY, "", 'a', p);
      WithChildKids(s1, "a", '*', p);
      WithChildKids(s2, "a*", 'b', p);
      WithChildKids(s3, "a*b", 'b', p);
      WithChildKids(EMPTY, "", 'a', "a");
      WithChildKids(s1, "a", '*', "a*");
      WithChildKids(EMPTY, "", 'a', "a*");
      WithChildKids(s2, "a*", 'b', "a*b");
      WithChildKids(s1, "a", '*', "a*b");
      WithChildKids(EMPTY, "", 'a', "a*b");
    }
  }

  lemma OtherRuleKids(s: Shape, second: Rule)
    requires KidsOf(s, "") == ['a'] && KidsOf(s, "a") == ['*'] && KidsOf(s, "a*") == ['b'] && KidsOf(s, "a*b") == ['b']
    ensures var s' := Insert(s, "a*b*d", second);
      KidsOf(s', "a") == ['*'] && KidsOf(s', "a*b") == ['b', '*']
  {
    hide *;
    assert "" + ['a'] == "a" && "a" + ['*'] == "a*" && "a*" + ['b'] == "a*b";
    assert "a*b" + ['*'] == "a*b*" && "a*b*" + ['d'] == "a*b*d";
    WithPathUnfold(s, "", 'a');
    WithPathUnfold(s, "a", '*');
    WithPathUnfold(s, "a*", 'b');
    WithPathUnfold(s, "a*b", '*');
    WithPathUnfold(s, "a*b*", 'd');
    forall p | p == "a" || p == "a*" || p == "a*b"
      ensures KidsOf(WithPath(s, "a*b"), p) == KidsOf(s, p)
    {
      WithChildKids(s, "", 'a', p);
      WithChildKids(WithPath(s, "a"), "a", '*', p);
      WithChildKids(WithPath(s, "a*"), "a*", 'b', p);
      WithChildKids(s, "", 'a', "a");
      WithChildKids(s, "", 'a', "a*");
      WithChildKids(WithPath(s, "a"), "a", '*', "a*");
    }
    forall p | p == "a" || p == "a*b"
      ensures KidsOf(Insert(s, "a*b*d", second), p) == if p == "a" then ['*'] else ['b', '*']
    {
      WithChildKids(WithPath(s, "a*b"), "a*b", '*', p);
      WithChildKids(WithPath(s, "a*b*"), "a*b*", 'd', p);
      InsertKids(s, "a*b*d", second, p);
    }
  }

  // ---------- Separator marks at the end of a pattern ----------

  lemma MatchesRun(w: string, sub: string, y: string, k: nat)
    requires k < |sub| && k <= |y| && y[..k] == sub[..k] && Matches(w, sub[k..], y[k..])
    ensures Matches("*" + w, sub, y)
  {
    var w1 := "*" + w;
    assert w1[1..] == w;
    assert MatchesStar(w1, sub, y);
  }

  lemma {:induction false} MarkInFront(w: string, sub: string, y: string)
    requires Matches(w, sub, y) && |y| < |sub| && IsSeparator(sub[|y|])
    ensures Matches(w + "^", sub, y)
    decreases |w|
  {
    if w == "" {
      MatchesMark("", sub, y);
      assert w + "^" == "^" + "";
    } else {
      var w1 := w[1..];
      assert w + "^" == [w[0]] + (w1 + "^");
      if MatchesLiteral(w, sub, y) {
        MarkInFront(w1, sub[1..], y[1..]);
        MatchesNext(w[0], w1 + "^", sub[1..], y[1..]);
        assert sub == [w[0]] + sub[1..] && y == [w[0]] + y[1..];
      } else if MatchesStar(w, sub, y) {
        var k :| 0 <= k < |sub| && k <= |y| && y[..k] == sub[..k] && Matches(w1, sub[k..], y[k..]);
        MarkInFront(w1, sub[k..], y[k..]);
        MatchesRun(w1 + "^", sub, y, k);
      } else {
        MarkInFront(w1, sub, y);
        MatchesMark(w1 + "^", sub, y);
      }
    }
  }

  lemma {:induction false} MarkItself(w: string, sub: string, y: string)
    requires Matches(w, sub, y) && |y| < |sub| && sub[|y|] == '^'
    ensures Matches(w + "^", sub, y + "^")
    decreases |w|
  {
    if w == "" {
      MatchesNext('^', "", sub[1..], "");
      assert w + "^" == ['^'] + "" && y + "^" == ['^'] + "" && sub == ['^'] + sub[1..];
    } else {
      var w1 := w[1..];
      assert w + "^" == [w[0]] + (w1 + "^");
      if MatchesLiteral(w, sub, y) {
        MarkItself(w1, sub[1..], y[1..]);
        MatchesNext(w[0], w1 + "^", sub[1..], y[1..] + "^");
        assert sub == [w[0]] + sub[1..] && y + "^" == [w[0]] + (y[1..] + "^");
      } else if MatchesStar(w, sub, y) {
        var k :| 0 <= k < |sub| && k <= |y| && y[..k] == sub[..k] && Matches(w1, sub[k..], y[k..]);
        MarkItself(w1, sub[k..], y[k..]);
        assert (y + "^")[k..] == y[k..] + "^" && (y + "^")[..k] == y[..k];
        MatchesRun(w1 + "^", sub, y + "^", k);
      } else {
        MarkItself(w1, sub, y);
        MatchesMark(w1 + "^", sub, y + "^");
      }
    }
  }

  lemma {:induction false} MarkedParts(w: string, sub: string, y: string)
    requires Matches(w + "^", sub, y)
    ensures || (Matches(w, sub, y) && |y| < |sub| && IsSeparator(sub[|y|]))
            || (y != "" && y <= sub && y[|y| - 1] == '^' && Matches(w, sub, y[..|y| - 1]))
    decreases |w|
  {
    var v := w + "^";
    MatchIsPrefix(v, sub, y);
    if w == "" {
      assert v[1..] == "";
      if MatchesLiteral(v, sub, y) {
        assert Matches("", sub[1..], y[1..]) && y == ['^'];
      }
    } else {
      var w1 := w[1..];
      assert v[0] == w[0] && v[1..] == w1 + "^" && w == [w[0]] + w1;
      if MatchesLiteral(v, sub, y) {
        MarkedParts(w1, sub[1..], y[1..]);
        assert sub == [w[0]] + sub[1..] && y == [w[0]] + y[1..];
        if Matches(w1, sub[1..], y[1..]) {
          MatchesNext(w[0], w1, sub[1..], y[1..]);
        }
        if |y| > 1 && Matches(w1, sub[1..], y[1..][..|y| - 2]) {
          MatchesNext(w[0], w1, sub[1..], y[1..][..|y| - 2]);
          assert y[..|y| - 1] == [w[0]] + y[1..][..|y| - 2];
        }
      } else if MatchesStar(v, sub, y) {
        var k :| 0 <= k < |sub| && k <= |y| && y[..k] == sub[..k] && Matches(v[1..], sub[k..], y[k..]);
        MarkedParts(w1, sub[k..], y[k..]);
        if Matches(w1, sub[k..], y[k..]) {
          MatchesRun(w1, sub, y, k);
        }
        if |y| > k && Matches(w1, sub[k..], y[k..][..|y| - k - 1]) {
          var z := y[..|y| - 1];
          assert z[k..] == y[k..][..|y| - k - 1] && z[..k] == y[..k];
          MatchesRun(w1, sub, z, k);
        }
      } else {
        MarkedParts(w1, sub, y);
        if Matches(w1, sub, y) {
          MatchesMark(w1, sub, y);
        }
        if y != "" && Matches(w1, sub, y[..|y| - 1]) {
          MatchesMark(w1, sub, y[..|y| - 1]);
        }
      }
    }
  }

  /** A pattern that ends in a separator mark matches exactly where the pattern before the mark does and the address
      goes on with a separator, which the match may include if it is the mark itself. So it does not match at the end
      of an address. */
  lemma {:induction false} MarkNeedsCharacter(w: string, sub: string, y: string)
    ensures Matches(w + "^", sub, y) <==>
      || (Matches(w, sub, y) && |y| < |sub| && IsSeparator(sub[|y|]))
      || (y != "" && y <= sub && y[|y| - 1] == '^' && Matches(w, sub, y[..|y| - 1]))
  {
    if Matches(w + "^", sub, y) {
      MarkedParts(w, sub, y);
    }
    if Matches(w, sub, y) && |y| < |sub| && IsSeparator(sub[|y|]) {
      MarkInFront(w, sub, y);
    }
    if y != "" && y <= sub && y[|y| - 1] == '^' && Matches(w, sub, y[..|y| - 1]) {
      MarkItself(w, sub, y[..|y| - 1]);
      assert y[..|y| - 1] + "^" == y;
    }
  }

  /** The rule "ab^" is not found on the address "ab". */
  lemma {:induction false} MarkNotAtEnd(rule: Rule, applies: Test)
    ensures Listed([("ab^", rule)], "ab", applies) == UrlHits(Build([("ab^", rule)]), "ab", applies) == iset{}
  {
    var rules := [("ab^", rule)];
    SearchIsSound(rules, "ab", applies);
    hide Build, UrlHits;
    forall i, y | 0 <= i < 2
      ensures !Matches("ab^", "ab"[i..], y)
    {
      assert "ab^" == "ab" + "^";
      MarkNeedsCharacter("ab", "ab"[i..], y);
      LiteralMatch("ab", "ab"[i..], y);
      if y != "" {
        LiteralMatch("ab", "ab"[i..], y[..|y| - 1]);
      }
    }
  }
}
