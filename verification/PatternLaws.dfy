/** What single rules are found on, in terms of the text of the address alone. */
module PatternLaws {
  import opened TrieShape
  import opened TrieSearch
  import opened TrieHits
  import opened TrieExact

  /** The text has a part at a position. */
  predicate Occurs(part: string, text: string, i: int) {
    0 <= i && i + |part| <= |text| && text[i..i + |part|] == part
  }

  /** Pattern without stars and separator marks. */
  predicate Literal(w: string) {
    '*' !in w && '^' !in w
  }

  lemma PrefixOccurs(part: string, text: string, i: nat)
    requires i <= |text|
    ensures part <= text[i..] <==> Occurs(part, text, i)
  {
    if part <= text[i..] {
      assert text[i..i + |part|] == text[i..][..|part|];
    }
    if Occurs(part, text, i) {
      assert text[i..][..|part|] == text[i..i + |part|];
    }
  }

  lemma OneRuleListed(w: string, r: Rule, url: string, applies: Test)
    ensures r in Listed([(w, r)], url, applies) <==>
      exists i, y :: 0 <= i < |url| && Matches(w, url[i..], y) && applies(r, y)
  {
    var rules := [(w, r)];
    hide Matches;
    if i, y :| 0 <= i < |url| && Matches(w, url[i..], y) && applies(r, y) {
      assert AppliesAt(rules, url, applies, 0, i, y);
    }
    if r in Listed(rules, url, applies) {
      var n, i, y :| 0 <= n < |rules| && 0 <= i < |url| && rules[n].1 == r && AppliesAt(rules, url, applies, n, i, y);
      assert Matches(w, url[i..], y);
    }
  }

  // ---------- Literal patterns ----------

  /** A rule whose pattern is literal is found exactly on the addresses of which the pattern is a part. */
  lemma LiteralFound(w: string, r: Rule, url: string, applies: Test)
    requires w != "" && Literal(w)
    ensures r in UrlHits(Build([(w, r)]), url, applies) <==> r in Listed([(w, r)], url, applies)
    ensures r in Listed([(w, r)], url, applies) <==> applies(r, w) && exists i :: Occurs(w, url, i)
  {
    PlainRulesComplete([(w, r)], url, applies);
    OneRuleListed(w, r, url, applies);
    hide *;
    if i, y :| 0 <= i < |url| && Matches(w, url[i..], y) && applies(r, y) {
      LiteralAt(w, url, i, y);
    }
    if i :| Occurs(w, url, i) && applies(r, w) {
      OccursInside(w, url, i);
      LiteralAt(w, url, i, w);
    }
  }

  lemma OccursInside(w: string, url: string, i: int)
    requires Occurs(w, url, i)
    ensures 0 <= i && i + |w| <= |url|
  {}

  lemma LiteralAt(w: string, url: string, i: nat, y: string)
    requires Literal(w) && i <= |url|
    ensures Matches(w, url[i..], y) <==> y == w && Occurs(w, url, i)
  {
    LiteralMatch(w, url[i..], y);
    PrefixOccurs(w, url, i);
    hide Matches, Occurs;
  }

  // ---------- Separator marks ----------

  lemma SeparatorsAre(c: char)
    ensures IsSeparator(c) <==> !LETTERS_AND_DIGITS(c) && c !in "_-.%"
  {}

  /** What a literal pattern with a separator mark behind it matches. */
  lemma MarkAt(w: string, url: string, i: nat, y: string)
    requires Literal(w) && i < |url|
    ensures Matches(w + "^", url[i..], y) <==>
      && Occurs(w, url, i) && i + |w| < |url|
      && !LETTERS_AND_DIGITS(url[i + |w|]) && url[i + |w|] !in "_-.%"
      && (y == w || (url[i + |w|] == '^' && y == w + "^"))
  {
    var sub := url[i..];
    MarkNeedsCharacter(w, sub, y);
    LiteralMatch(w, sub, y);
    PrefixOccurs(w, url, i);
    if y != "" {
      LiteralMatch(w, sub, y[..|y| - 1]);
    }
    if i + |w| < |url| {
      SeparatorsAre(url[i + |w|]);
      assert sub[|w|] == url[i + |w|];
    }
    hide Matches, Literal, IsSeparator;
    if w <= sub {
      MarkedPrefix(w, sub, y);
    }
  }

  lemma MarkedPrefix(w: string, sub: string, y: string)
    requires w <= sub
    ensures y != "" && y <= sub && y[|y| - 1] == '^' && y[..|y| - 1] == w
      <==> |w| < |sub| && sub[|w|] == '^' && y == w + "^"
  {
    if |w| < |sub| && sub[|w|] == '^' {
      assert sub[..|w| + 1] == w + "^";
    }
    if y != "" && y[..|y| - 1] == w {
      assert y == w + [y[|w|]];
    }
  }

  /** A rule whose pattern is literal but for a separator mark at its end is found exactly on the addresses that go on
      behind the pattern with a character that is no letter or digit and none of "_", "-", "." and "%". */
  lemma MarkFound(w: string, r: Rule, url: string)
    requires Literal(w)
    ensures r in UrlHits(Build([(w + "^", r)]), url, ALWAYS) <==> r in Listed([(w + "^", r)], url, ALWAYS)
    ensures r in Listed([(w + "^", r)], url, ALWAYS) <==>
      exists i :: Occurs(w, url, i) && i + |w| < |url|
        && !LETTERS_AND_DIGITS(url[i + |w|]) && url[i + |w|] !in "_-.%"
  {
    PlainRulesComplete([(w + "^", r)], url, ALWAYS);
    OneRuleListed(w + "^", r, url, ALWAYS);
    hide Build, UrlHits, Listed, Matches, Occurs, Literal;
    if i, y :| 0 <= i < |url| && Matches(w + "^", url[i..], y) {
      MarkAt(w, url, i, y);
    }
    if i :| Occurs(w, url, i) && i + |w| < |url| && !LETTERS_AND_DIGITS(url[i + |w|]) && url[i + |w|] !in "_-.%" {
      OccursInside(w, url, i);
      MarkAt(w, url, i, w);
      assert Matches(w + "^", url[i..], w) && ALWAYS(r, w);
    }
  }

  /** So one more character decides, on the address that is the pattern and this character. */
  lemma MarkBefore(w: string, r: Rule, c: char)
    requires Literal(w)
    ensures r in UrlHits(Build([(w + "^", r)]), w + [c], ALWAYS) <==> !LETTERS_AND_DIGITS(c) && c !in "_-.%"
    ensures r in Listed([(w + "^", r)], w + [c], ALWAYS) <==> !LETTERS_AND_DIGITS(c) && c !in "_-.%"
  {
    var url := w + [c];
    MarkFound(w, r, url);
    hide Build, UrlHits, Listed, Literal;
    assert Occurs(w, url, 0) && url[0 + |w|] == c;
    forall i | Occurs(w, url, i) && i + |w| < |url|
      ensures i == 0
    {}
  }

  // ---------- Stars ----------

  /** What a star between two literal patterns matches. */
  lemma {:induction false} StarAt(u: string, v: string, sub: string, y: string)
    requires Literal(u) && Literal(v) && v != ""
    ensures Matches(u + "*" + v, sub, y) <==> y <= sub && |u| + |v| <= |y| && u <= y && y[|y| - |v|..] == v
    decreases |u|
  {
    var w := u + "*" + v;
    if u == "" {
      assert w == "*" + v;
      StarFirst(v, sub, y);
    } else {
      var u1 := u[1..];
      assert w == [u[0]] + (u1 + "*" + v) && w[0] == u[0] && w[1..] == u1 + "*" + v && u[0] in u;
      if sub != "" && y != "" {
        StarAt(u1, v, sub[1..], y[1..]);
        NextLetter(u, sub, y, v);
      }
    }
  }

  lemma NextLetter(u: string, sub: string, y: string, v: string)
    requires u != "" && sub != "" && y != ""
    ensures u[0] == sub[0] && y[0] == sub[0] && y[1..] <= sub[1..] && |u[1..]| + |v| <= |y[1..]| && u[1..] <= y[1..]
        && y[1..][|y[1..]| - |v|..] == v
      <==> y <= sub && |u| + |v| <= |y| && u <= y && y[|y| - |v|..] == v
  {
    assert u == [u[0]] + u[1..] && y == [y[0]] + y[1..] && sub == [sub[0]] + sub[1..];
    if |u| + |v| <= |y| {
      assert y[1..][|y[1..]| - |v|..] == y[|y| - |v|..];
    }
  }

  lemma StarFirst(v: string, sub: string, y: string)
    requires Literal(v) && v != ""
    ensures Matches("*" + v, sub, y) <==> y <= sub && |v| <= |y| && y[|y| - |v|..] == v
  {
    var w := "*" + v;
    assert w[1..] == v;
    hide Literal;
    if sub != "" {
      if y != "" {
        LiteralMatch(v, sub[1..], y[1..]);
      }
      if y <= sub && |v| <= |y| && y[|y| - |v|..] == v {
        var k := |y| - |v|;
        LiteralMatch(v, sub[k..], y[k..]);
        PrefixParts(sub, y, k);
        assert MatchesStar(w, sub, y);
      }
      forall k | 0 <= k < |sub| && k <= |y| && y[..k] == sub[..k] && Matches(v, sub[k..], y[k..])
        ensures y <= sub && |v| <= |y| && y[|y| - |v|..] == v
      {
        LiteralMatch(v, sub[k..], y[k..]);
        PrefixParts(sub, y, k);
      }
      PrefixParts(sub, y, if y == "" then 0 else 1);
    }
  }

  lemma PrefixParts(sub: string, y: string, k: nat)
    requires k <= |sub| && k <= |y|
    ensures y <= sub <==> y[..k] == sub[..k] && y[k..] <= sub[k..]
  {
    assert y == y[..k] + y[k..] && sub == sub[..k] + sub[k..];
  }

  // ---------- A star on a single path ----------

  lemma {:induction false} PathKids(w: string, p: string)
    ensures |KidsOf(WithPath(EMPTY, w), p)| <= 1
    ensures KidsOf(WithPath(EMPTY, w), p) != [] ==> |p| < |w|
  {
    if w != "" {
      var n := |w| - 1;
      var s := WithPath(EMPTY, w[..n]);
      PathKids(w[..n], p);
      PathKids(w[..n], w[..n]);
      hide WithChild, KidsOf;
      WithChildKids(s, w[..n], w[n], p);
    }
  }

  /** The trie of a single rule has no siblings. */
  lemma OnlyChildren(w: string, r: Rule, p: string)
    ensures |KidsOf(Build([(w, r)]), p)| <= 1
  {
    assert [] + [(w, r)] == [(w, r)];
    BuildUnfold([], w, r);
    hide *;
    PathKids(w, p);
    InsertKids(EMPTY, w, r, p);
  }

  lemma OneRuleComplete(w: string, r: Rule, url: string, applies: Test)
    ensures UrlHits(Build([(w, r)]), url, applies) == Listed([(w, r)], url, applies)
  {
    var s := Build([(w, r)]);
    hide Build, UrlHits, Listed, KidsOf;
    forall p
      ensures |KidsOf(s, p)| <= 1
    {
      OnlyChildren(w, r, p);
    }
    SearchIsComplete([(w, r)], url, applies);
  }

  /** A rule with a star between two literal parts is found exactly on the addresses that have the first part and,
      behind it, the second. */
  lemma StarFound(u: string, v: string, r: Rule, url: string)
    requires Literal(u) && Literal(v) && v != ""
    ensures r in UrlHits(Build([(u + "*" + v, r)]), url, ALWAYS) <==>
      exists i, k :: Occurs(u, url, i) && Occurs(v, url, k) && i + |u| <= k
    ensures r in UrlHits(Build([(u + "*" + v, r)]), url, ALWAYS) <==> r in Listed([(u + "*" + v, r)], url, ALWAYS)
  {
    var w := u + "*" + v;
    OneRuleComplete(w, r, url, ALWAYS);
    OneRuleListed(w, r, url, ALWAYS);
    hide Build, UrlHits, Listed, Matches, Occurs, Literal;
    if i, y :| 0 <= i < |url| && Matches(w, url[i..], y) {
      StarAt(u, v, url[i..], y);
      FoundParts(u, v, url, i, y);
    }
    if i, k :| Occurs(u, url, i) && Occurs(v, url, k) && i + |u| <= k {
      PartsFound(u, v, url, i, k);
      StarAt(u, v, url[i..], url[i..k + |v|]);
      assert Matches(w, url[i..], url[i..k + |v|]) && ALWAYS(r, url[i..k + |v|]);
    }
  }

  lemma FoundParts(u: string, v: string, url: string, i: nat, y: string)
    requires i <= |url| && y <= url[i..] && |u| + |v| <= |y| && u <= y && y[|y| - |v|..] == v
    ensures Occurs(u, url, i) && Occurs(v, url, i + |y| - |v|) && i + |u| <= i + |y| - |v|
  {
    assert url[i..i + |y|] == y;
    assert y[..|u|] == url[i..i + |u|];
    assert y[|y| - |v|..] == url[i + |y| - |v|..i + |y|];
  }

  lemma PartsFound(u: string, v: string, url: string, i: int, k: int)
    requires Occurs(u, url, i) && Occurs(v, url, k) && i + |u| <= k && v != ""
    ensures 0 <= i < |url| && i <= k + |v| <= |url|
    ensures var y := url[i..k + |v|]; y <= url[i..] && |u| + |v| <= |y| && u <= y && y[|y| - |v|..] == v
  {
    var y := url[i..k + |v|];
    assert y == url[i..][..|y|];
    assert y[..|u|] == url[i..i + |u|];
    assert y[|y| - |v|..] == url[k..k + |v|];
  }
}
