/** The rules that a search hits, and the answer they decide. */
module TrieHits {
  import opened TrieShape
  import opened TrieSearch

  /** Whether a rule applies to a request when the given text of its address matches the rule's pattern. */
  type Test = (Rule, string) -> bool

  /** The test of one rule. */
  function CheckRuleMatch(rule: Rule, currentRule: string, applies: Test): CheckResult {
    if !applies(rule, currentRule) then NoResult else if rule.isException then Exception(rule) else Blocked(rule)
  }

  /** An exception decides over blocking, and there is no answer only if nothing is hit. */
  ghost predicate Decides(result: CheckResult, hits: iset<Rule>) {
    match result
    case NoResult => hits == iset{}
    case Blocked(rule) => rule in hits && forall r :: r in hits ==> !r.isException
    case Exception(rule) => rule in hits && rule.isException
  }

  /** The search reaches the node `p + w` on the text `t + y`, and the rule there applies. */
  ghost predicate HitBy(s: Shape, p: string, sub: string, t: string, applies: Test, r: Rule, w: string, y: string) {
    Explores(s, p, w, sub, y) && r in RulesOf(s, p + w) && applies(r, t + y)
  }

  /** The rules hit from the node `p` on, with the text `t` behind and the text `sub` ahead. */
  ghost function Hits(s: Shape, p: string, sub: string, t: string, applies: Test): iset<Rule> {
    iset r | IsHit(s, p, sub, t, applies, r)
  }

  ghost predicate IsHit(s: Shape, p: string, sub: string, t: string, applies: Test, r: Rule) {
    exists w, y :: HitBy(s, p, sub, t, applies, r, w, y)
  }

  /** The rules hit by the search of a whole address, which starts at each of its characters. */
  ghost function UrlHits(s: Shape, url: string, applies: Test): iset<Rule> {
    iset r | IsUrlHit(s, url, applies, r)
  }

  ghost predicate IsUrlHit(s: Shape, url: string, applies: Test, r: Rule) {
    exists i :: 0 <= i < |url| && IsHit(s, "", url[i..], "", applies, r)
  }

  /** A rule of the list applies where its pattern matches. */
  ghost predicate AppliesAt(rules: seq<(string, Rule)>, url: string, applies: Test, n: nat, i: nat, y: string)
    requires n < |rules| && i < |url|
  {
    Matches(rules[n].0, url[i..], y) && applies(rules[n].1, y)
  }

  /** The rules that a scan over all rules and all positions finds. */
  ghost function Listed(rules: seq<(string, Rule)>, url: string, applies: Test): iset<Rule> {
    iset r | IsListed(rules, url, applies, r)
  }

  ghost predicate IsListed(rules: seq<(string, Rule)>, url: string, applies: Test, r: Rule) {
    exists n, i, y :: 0 <= n < |rules| && 0 <= i < |url| && rules[n].1 == r && AppliesAt(rules, url, applies, n, i, y)
  }

  // ---------- The trie of a rule list ----------

  lemma BuildUnfold(rules: seq<(string, Rule)>, pattern: string, rule: Rule)
    ensures Build([]) == EMPTY
    ensures Build(rules + [(pattern, rule)]) == Insert(Build(rules), pattern, rule)
  {
    assert (rules + [(pattern, rule)])[..|rules|] == rules;
    hide Insert;
  }

  lemma {:induction false} BuildSound(rules: seq<(string, Rule)>)
    ensures WellFormed(Build(rules)) && SeparatorsFirst(Build(rules))
    ensures forall p, r :: r in RulesOf(Build(rules), p) <==> (p, r) in rules
  {
    if rules != [] {
      var init := rules[..|rules| - 1];
      var (pattern, rule) := rules[|rules| - 1];
      assert rules == init + [(pattern, rule)];
      BuildUnfold(init, pattern, rule);
      hide *;
      BuildSound(init);
      InsertSound(Build(init), pattern, rule);
      InsertSeparatorsFirst(Build(init), pattern, rule);
    } else {
      EmptySound();
    }
  }

  lemma EmptySound()
    ensures WellFormed(EMPTY) && SeparatorsFirst(EMPTY)
    ensures forall p :: RulesOf(EMPTY, p) == [] && KidsOf(EMPTY, p) == []
  {}

  lemma {:induction false} InsertSeparatorsFirst(s: Shape, pattern: string, rule: Rule)
    requires SeparatorsFirst(s)
    ensures SeparatorsFirst(Insert(s, pattern, rule))
  {
    PathSeparatorsFirst(s, pattern);
    assert forall p :: KidsOf(Insert(s, pattern, rule), p) == KidsOf(WithPath(s, pattern), p);
  }

  lemma {:induction false} PathSeparatorsFirst(s: Shape, pattern: string)
    requires SeparatorsFirst(s)
    ensures SeparatorsFirst(WithPath(s, pattern))
  {
    if pattern != "" {
      var n := |pattern| - 1;
      PathSeparatorsFirst(s, pattern[..n]);
      ChildSeparatorsFirst(WithPath(s, pattern[..n]), pattern[..n], pattern[n]);
      hide WithChild;
    }
  }

  lemma ChildSeparatorsFirst(s: Shape, p: string, c: char)
    requires SeparatorsFirst(s)
    ensures SeparatorsFirst(WithChild(s, p, c))
  {
    forall q
      ensures '^' in KidsOf(WithChild(s, p, c), q) ==> KidsOf(WithChild(s, p, c), q)[0] == '^'
    {
      WithChildKids(s, p, c, q);
      hide WithChild;
      assert '^' in KidsOf(s, p) + [c] ==> c == '^' || '^' in KidsOf(s, p);
    }
  }

  /** Whatever the rules, the search of their trie finds only rules that a scan over all rules finds too. */
  lemma SearchIsSound(rules: seq<(string, Rule)>, url: string, applies: Test)
    ensures UrlHits(Build(rules), url, applies) <= Listed(rules, url, applies)
  {
    var s := Build(rules);
    BuildSound(rules);
    hide Build;
    forall r | r in UrlHits(s, url, applies)
      ensures r in Listed(rules, url, applies)
    {
      var i :| 0 <= i < |url| && IsHit(s, "", url[i..], "", applies, r);
      var w, y :| HitBy(s, "", url[i..], "", applies, r, w, y);
      ExploredMatches(s, "", w, url[i..], y);
      assert "" + w == w && "" + y == y;
      assert (w, r) in rules;
      var n :| 0 <= n < |rules| && rules[n] == (w, r);
      assert AppliesAt(rules, url, applies, n, i, y);
    }
  }

  /** The search of an address explores every match of a rule's pattern. */
  ghost predicate ExploresMatches(s: Shape, w: string, url: string) {
    forall i, y :: 0 <= i < |url| && Matches(w, url[i..], y) ==> Explores(s, "", w, url[i..], y)
  }

  /** If it explores every match of every pattern, the search finds exactly what the scan finds. */
  lemma {:induction false} ExploringIsComplete(rules: seq<(string, Rule)>, url: string, applies: Test)
    requires forall n :: 0 <= n < |rules| ==> ExploresMatches(Build(rules), rules[n].0, url)
    ensures UrlHits(Build(rules), url, applies) == Listed(rules, url, applies)
  {
    SearchIsSound(rules, url, applies);
    var s := Build(rules);
    BuildSound(rules);
    hide Build, Matches, Explores;
    forall r | r in Listed(rules, url, applies)
      ensures r in UrlHits(s, url, applies)
    {
      var n, i, y :| 0 <= n < |rules| && 0 <= i < |url| && rules[n].1 == r && AppliesAt(rules, url, applies, n, i, y);
      var w := rules[n].0;
      assert rules[n] == (w, r);
      assert "" + w == w && "" + y == y;
      assert r in RulesOf(s, w);
      assert ExploresMatches(s, w, url);
      assert HitBy(s, "", url[i..], "", applies, r, w, y);
      assert IsHit(s, "", url[i..], "", applies, r);
    }
  }

  /** If no star is hidden by a sibling for a character of the address, the search finds exactly what the scan finds. */
  lemma {:induction false} SearchIsComplete(rules: seq<(string, Rule)>, url: string, applies: Test)
    requires StarsInView(Build(rules), url)
    ensures UrlHits(Build(rules), url, applies) == Listed(rules, url, applies)
  {
    var s := Build(rules);
    BuildSound(rules);
    forall n | 0 <= n < |rules|
      ensures ExploresMatches(s, rules[n].0, url)
    {
      AllPathsInView(s, rules[n].0, url);
      PatternIsNode(rules, n);
      hide Build, StarsInView;
      PathExplores(s, rules[n].0, url);
    }
    hide Build, StarsInView;
    ExploringIsComplete(rules, url, applies);
  }

  lemma PatternIsNode(rules: seq<(string, Rule)>, n: nat)
    requires n < |rules|
    ensures rules[n].0 in Build(rules)
  {
    BuildSound(rules);
    hide Build;
    assert (rules[n].0, rules[n].1) == rules[n];
    assert rules[n].1 in RulesOf(Build(rules), rules[n].0);
  }

  lemma PathExplores(s: Shape, w: string, url: string)
    requires WellFormed(s) && SeparatorsFirst(s) && w in s && PathInView(s, w, url)
    ensures ExploresMatches(s, w, url)
  {
    hide WellFormed, SeparatorsFirst, PathInView, Matches, Explores;
    assert "" + w == w;
    forall i, y | 0 <= i < |url| && Matches(w, url[i..], y)
      ensures Explores(s, "", w, url[i..], y)
    {
      SuffixInView(s, w, url, i);
      MatchExplored(s, "", w, url[i..], y);
    }
  }

  lemma {:induction false} KidsFromPatterns(rules: seq<(string, Rule)>, c: char)
    requires forall n :: 0 <= n < |rules| ==> c !in rules[n].0
    ensures forall p :: c !in KidsOf(Build(rules), p)
  {
    if rules != [] {
      var init, s := rules[..|rules| - 1], Build(rules[..|rules| - 1]);
      var (pattern, rule) := rules[|rules| - 1];
      KidsFromPatterns(init, c);
      KidsFromPath(s, pattern, c);
      assert forall p :: KidsOf(Insert(s, pattern, rule), p) == KidsOf(WithPath(s, pattern), p);
    }
  }

  lemma {:induction false} KidsFromPath(s: Shape, pattern: string, c: char)
    requires c !in pattern && forall p :: c !in KidsOf(s, p)
    ensures forall p :: c !in KidsOf(WithPath(s, pattern), p)
  {
    if pattern != "" {
      var n := |pattern| - 1;
      KidsFromPath(s, pattern[..n], c);
      hide WithChild;
      forall p
        ensures c !in KidsOf(WithPath(s, pattern), p)
      {
        WithChildKids(WithPath(s, pattern[..n]), pattern[..n], pattern[n], p);
      }
    }
  }

  /** Rules whose patterns have no stars are all found, on every address. */
  lemma PlainRulesComplete(rules: seq<(string, Rule)>, url: string, applies: Test)
    requires forall n :: 0 <= n < |rules| ==> '*' !in rules[n].0
    ensures UrlHits(Build(rules), url, applies) == Listed(rules, url, applies)
  {
    KidsFromPatterns(rules, '*');
    hide Build;
    SearchIsComplete(rules, url, applies);
  }

  /** The answer for an address is what the scan says: an exception if and only if an exception rule applies somewhere,
      and otherwise blocked if and only if any rule does. */
  lemma AgreesWithScan(rules: seq<(string, Rule)>, url: string, applies: Test, result: CheckResult)
    requires StarsInView(Build(rules), url)
    requires Decides(result, UrlHits(Build(rules), url, applies))
    ensures result.Exception? <==> exists r :: IsListed(rules, url, applies, r) && r.isException
    ensures result.Blocked? <==>
      (exists r :: IsListed(rules, url, applies, r)) && !(exists r :: IsListed(rules, url, applies, r) && r.isException)
    ensures result != NoResult ==> IsListed(rules, url, applies, result.rule)
  {
    SearchIsComplete(rules, url, applies);
    hide UrlHits, IsListed, Build;
    assert forall r :: r in Listed(rules, url, applies) <==> IsListed(rules, url, applies, r);
  }

  /** A pattern without stars and separator marks matches exactly itself. */
  lemma {:induction false} LiteralMatch(w: string, sub: string, y: string)
    requires '*' !in w && '^' !in w
    ensures Matches(w, sub, y) <==> y == w && w <= sub
    decreases |w|
  {
    if w != "" && sub != "" {
      if y != "" {
        LiteralMatch(w[1..], sub[1..], y[1..]);
        assert w == [w[0]] + w[1..] && y == [y[0]] + y[1..] && sub == [sub[0]] + sub[1..];
      }
    }
  }

  /** A star that was inserted after a sibling is hidden where the next character is the sibling's: with the patterns
      "ac" and "a*d", the second rule is not found on "acd". */
  lemma HiddenStar(first: Rule, second: Rule)
    requires first != second
    ensures var rules := [("ac", first), ("a*d", second)];
      second in Listed(rules, "acd", ALWAYS) && second !in UrlHits(Build(rules), "acd", ALWAYS)
  {
    HiddenStarListed(first, second);
    hide Build, Explores;
    var rules := [("ac", first), ("a*d", second)];
    forall i, w, y | 0 <= i < 3
      ensures !HitBy(Build(rules), "", "acd"[i..], "", ALWAYS, second, w, y)
    {
      HiddenStarMissed(first, second, i, w, y);
    }
  }

  const ALWAYS: Test := (r, t) => true

  lemma HiddenStarListed(first: Rule, second: Rule)
    ensures second in Listed([("ac", first), ("a*d", second)], "acd", ALWAYS)
  {
    var rules, url, v, cd := [("ac", first), ("a*d", second)], "acd", "*d", "cd";
    assert url[0..] == url && url[1..] == cd && cd[1..] == "d" && "a*d"[1..] == v && v[1..] == "d";
    LiteralMatch("d", "d", "d");
    assert cd[..1] == cd[..1] && Matches(v[1..], cd[1..], cd[1..]);
    assert MatchesStar(v, cd, cd);
    assert MatchesLiteral("a*d", url, url);
    assert AppliesAt(rules, url, ALWAYS, 1, 0, url);
  }

  lemma HiddenStarMissed(first: Rule, second: Rule, i: nat, w: string, y: string)
    requires first != second && i < 3
    ensures !HitBy(Build([("ac", first), ("a*d", second)]), "", "acd"[i..], "", ALWAYS, second, w, y)
  {
    var rules := [("ac", first), ("a*d", second)];
    var s := Build(rules);
    BuildSound(rules);
    HiddenStarKids(first, second);
    NotExplored(s, "acd"[i..], y);
    hide Build, WellFormed, SeparatorsFirst, Explores;
    assert "" + w == w;
  }

  lemma NotExplored(s: Shape, sub: string, y: string)
    requires KidsOf(s, "a") == ['c', '*'] && (sub == "" || sub[0] != 'a' || sub[1..] == "cd")
    ensures !Explores(s, "", "a*d", sub, y)
  {
    var w, kids := "a*d", ['c', '*'];
    assert kids[0] == 'c' && kids[1] == '*' && Shadowed(kids, '*', 'c');
    assert "" + [w[0]] == "a" && w[1..] == "*d";
    assert forall z :: !Explores(s, "a", "*d", "cd", z);
  }

  lemma InsertKids(s: Shape, pattern: string, rule: Rule, p: string)
    ensures KidsOf(Insert(s, pattern, rule), p) == KidsOf(WithPath(s, pattern), p)
  {
    hide WithPath;
  }

  lemma FirstKids(first: Rule)
    ensures var s := Insert(EMPTY, "ac", first); KidsOf(s, "") == ['a'] && KidsOf(s, "a") == ['c']
  {
    EmptySound();
    hide *;
    assert "" + ['a'] == "a" && "a" + ['c'] == "ac";
    var s := WithPath(EMPTY, "a");
    WithPathUnfold(EMPTY, "", 'a');
    WithPathUnfold(EMPTY, "a", 'c');
    WithChildKids(EMPTY, "", 'a', "");
    WithChildKids(EMPTY, "", 'a', "a");
    WithChildKids(s, "a", 'c', "");
    WithChildKids(s, "a", 'c', "a");
    InsertKids(EMPTY, "ac", first, "");
    InsertKids(EMPTY, "ac", first, "a");
  }

  lemma SecondKids(s: Shape, second: Rule)
    requires KidsOf(s, "") == ['a'] && KidsOf(s, "a") == ['c']
    ensures KidsOf(Insert(s, "a*d", second), "a") == ['c', '*']
  {
    hide *;
    assert "" + ['a'] == "a" && "a" + ['*'] == "a*" && "a*" + ['d'] == "a*d";
    WithPathUnfold(s, "", 'a');
    WithPathUnfold(s, "a", '*');
    WithPathUnfold(s, "a*", 'd');
    WithChildKids(s, "", 'a', "a");
    WithChildKids(WithPath(s, "a"), "a", '*', "a");
    WithChildKids(WithPath(s, "a*"), "a*", 'd', "a");
    InsertKids(s, "a*d", second, "a");
  }

  lemma HiddenStarKids(first: Rule, second: Rule)
    ensures KidsOf(Build([("ac", first), ("a*d", second)]), "a") == ['c', '*']
  {
    BuildUnfold([], "ac", first);
    BuildUnfold([("ac", first)], "a*d", second);
    hide *;
    assert [] + [("ac", first)] == [("ac", first)];
    assert [("ac", first)] + [("a*d", second)] == [("ac", first), ("a*d", second)];
    FirstKids(first);
    SecondKids(Insert(EMPTY, "ac", first), second);
  }
}
