/** How the rules hit from a node are made up of those of the node and those of its children. */
module TrieSteps {
  import opened Common
  import opened TrieShape
  import opened TrieSearch
  import opened TrieHits

  /** The rules of one node that apply. */
  ghost function NodeHits(s: Shape, p: string, t: string, applies: Test): iset<Rule> {
    iset r | r in RulesOf(s, p) && applies(r, t)
  }

  /** The rules hit below a star that takes up less than `n` characters. */
  ghost function StarHits(s: Shape, q: string, sub: string, t: string, applies: Test, n: nat): iset<Rule>
    requires n <= |sub|
  {
    if n == 0 then iset{}
    else StarHits(s, q, sub, t, applies, n - 1) + Hits(s, q, sub[n - 1..], t + sub[..n - 1], applies)
  }

  lemma {:induction false} StarHitsIs(s: Shape, q: string, sub: string, t: string, applies: Test, n: nat, r: Rule)
    requires n <= |sub|
    ensures r in StarHits(s, q, sub, t, applies, n) <==>
      exists k :: 0 <= k < n && r in Hits(s, q, sub[k..], t + sub[..k], applies)
  {
    hide Hits;
    if n > 0 {
      StarHitsIs(s, q, sub, t, applies, n - 1, r);
    }
  }

  /** The rules hit below the child for `c` in other ways than by `c` itself. */
  ghost function SideHitsOf(s: Shape, p: string, sub: string, t: string, applies: Test, c: char): iset<Rule>
    requires sub != ""
  {
    if c == '*' then StarHits(s, p + [c], sub, t, applies, |sub|)
    else if c == '^' && IsSeparator(sub[0]) then Hits(s, p + [c], sub, t, applies)
    else iset{}
  }

  /** The same for the first `n` children. */
  ghost function SideHits(s: Shape, p: string, sub: string, t: string, applies: Test, n: nat): iset<Rule>
    requires sub != "" && n <= |KidsOf(s, p)|
  {
    if n == 0 then iset{}
    else SideHits(s, p, sub, t, applies, n - 1) + SideHitsOf(s, p, sub, t, applies, KidsOf(s, p)[n - 1])
  }

  lemma {:induction false} SideHitsIs(s: Shape, p: string, sub: string, t: string, applies: Test, n: nat, r: Rule)
    requires sub != "" && n <= |KidsOf(s, p)|
    ensures r in SideHits(s, p, sub, t, applies, n) <==>
      exists j :: 0 <= j < n && r in SideHitsOf(s, p, sub, t, applies, KidsOf(s, p)[j])
  {
    hide SideHitsOf, KidsOf;
    if n > 0 {
      SideHitsIs(s, p, sub, t, applies, n - 1, r);
    }
  }

  /** The rules hit below the child for the next character. */
  ghost function LiteralHits(s: Shape, p: string, sub: string, t: string, applies: Test): iset<Rule>
    requires sub != ""
  {
    if sub[0] in KidsOf(s, p) then Hits(s, p + [sub[0]], sub[1..], t + [sub[0]], applies) else iset{}
  }

  /** The children before and including the one for the next character, or all children if there is none. */
  ghost predicate Shown(kids: seq<char>, next: char, n: nat) {
    n <= |kids| && if next in kids then n > 0 && kids[n - 1] == next else n == |kids|
  }

  lemma HitAtEnd(s: Shape, p: string, t: string, applies: Test, sub: string)
    requires p in s
    ensures NodeHits(s, p, t, applies) <= Hits(s, p, sub, t, applies)
    ensures sub == "" ==> Hits(s, p, sub, t, applies) == NodeHits(s, p, t, applies)
  {
    assert p + "" == p && t + "" == t;
    forall r | r in NodeHits(s, p, t, applies)
      ensures IsHit(s, p, sub, t, applies, r)
    {
      assert HitBy(s, p, sub, t, applies, r, "", "");
    }
    forall r, w, y | HitBy(s, p, "", t, applies, r, w, y)
      ensures r in NodeHits(s, p, t, applies)
    {
      assert w == "" && y == "";
    }
  }

  lemma HitIntro(s: Shape, p: string, sub: string, t: string, applies: Test, r: Rule, w: string, y: string)
    requires Explores(s, p, w, sub, y) && r in RulesOf(s, p + w) && applies(r, t + y)
    ensures r in Hits(s, p, sub, t, applies)
  {
    hide Explores, RulesOf;
    assert HitBy(s, p, sub, t, applies, r, w, y);
  }

  lemma HitElim(s: Shape, p: string, sub: string, t: string, applies: Test, r: Rule) returns (w: string, y: string)
    requires r in Hits(s, p, sub, t, applies)
    ensures Explores(s, p, w, sub, y) && r in RulesOf(s, p + w) && applies(r, t + y)
  {
    hide Explores, RulesOf;
    w, y :| HitBy(s, p, sub, t, applies, r, w, y);
  }

  lemma ExploreLiteral(s: Shape, p: string, sub: string, w: string, y: string)
    requires WellFormed(s) && p in s && sub != "" && sub[0] in KidsOf(s, p) && Explores(s, p + [sub[0]], w, sub[1..], y)
    ensures Explores(s, p, [sub[0]] + w, sub, [sub[0]] + y)
  {
    assert Distinct(KidsOf(s, p));
    var v, z := [sub[0]] + w, [sub[0]] + y;
    assert v[1..] == w && z[1..] == y;
    hide WellFormed;
    assert ExploresLiteral(s, p, v, sub, z);
  }

  lemma ExploreStar(s: Shape, p: string, sub: string, w: string, y: string, k: nat)
    requires p in s && '*' in KidsOf(s, p) && k < |sub| && !Shadowed(KidsOf(s, p), '*', sub[0])
    requires Explores(s, p + ['*'], w, sub[k..], y)
    ensures Explores(s, p, ['*'] + w, sub, sub[..k] + y)
  {
    var v, z := ['*'] + w, sub[..k] + y;
    assert v[1..] == w && z[k..] == y && z[..k] == sub[..k];
    hide Shadowed;
    assert ExploresStar(s, p, v, sub, z);
  }

  lemma ExploreSeparator(s: Shape, p: string, sub: string, w: string, y: string)
    requires p in s && '^' in KidsOf(s, p) && sub != "" && IsSeparator(sub[0]) && !Shadowed(KidsOf(s, p), '^', sub[0])
    requires Explores(s, p + ['^'], w, sub, y)
    ensures Explores(s, p, ['^'] + w, sub, y)
  {
    var v := ['^'] + w;
    assert v[1..] == w;
    hide Shadowed;
    assert ExploresSeparator(s, p, v, sub, y);
  }

  lemma Reassociate(p: string, a: string, w: string, t: string, b: string, y: string)
    ensures p + a + w == p + (a + w) && t + b + y == t + (b + y)
  {}

  lemma HitByLiteral(s: Shape, p: string, sub: string, t: string, applies: Test, r: Rule)
    requires WellFormed(s) && p in s && sub != "" && sub[0] in KidsOf(s, p)
    requires r in Hits(s, p + [sub[0]], sub[1..], t + [sub[0]], applies)
    ensures r in Hits(s, p, sub, t, applies)
  {
    hide *;
    var c := [sub[0]];
    var w, y := HitElim(s, p + c, sub[1..], t + c, applies, r);
    ExploreLiteral(s, p, sub, w, y);
    Reassociate(p, c, w, t, c, y);
    HitIntro(s, p, sub, t, applies, r, c + w, c + y);
  }

  lemma HitByStar(s: Shape, p: string, sub: string, t: string, applies: Test, r: Rule, k: nat)
    requires p in s && '*' in KidsOf(s, p) && k < |sub| && !Shadowed(KidsOf(s, p), '*', sub[0])
    requires r in Hits(s, p + ['*'], sub[k..], t + sub[..k], applies)
    ensures r in Hits(s, p, sub, t, applies)
  {
    hide *;
    var w, y := HitElim(s, p + ['*'], sub[k..], t + sub[..k], applies, r);
    ExploreStar(s, p, sub, w, y, k);
    Reassociate(p, ['*'], w, t, sub[..k], y);
    HitIntro(s, p, sub, t, applies, r, ['*'] + w, sub[..k] + y);
  }

  lemma HitBySeparator(s: Shape, p: string, sub: string, t: string, applies: Test, r: Rule)
    requires p in s && '^' in KidsOf(s, p) && sub != "" && IsSeparator(sub[0]) && !Shadowed(KidsOf(s, p), '^', sub[0])
    requires r in Hits(s, p + ['^'], sub, t, applies)
    ensures r in Hits(s, p, sub, t, applies)
  {
    hide *;
    var w, y := HitElim(s, p + ['^'], sub, t, applies, r);
    ExploreSeparator(s, p, sub, w, y);
    Reassociate(p, ['^'], w, t, "", y);
    HitIntro(s, p, sub, t, applies, r, ['^'] + w, y);
  }

  /** The ways in which a search goes on. */
  lemma ExploreCases(s: Shape, p: string, w: string, sub: string, y: string)
    requires Explores(s, p, w, sub, y) && sub != ""
    ensures w == "" ==> y == ""
    ensures w != "" ==> w == [w[0]] + w[1..] && w[0] in KidsOf(s, p) && !Shadowed(KidsOf(s, p), w[0], sub[0])
    ensures w != "" ==>
      ExploresLiteral(s, p, w, sub, y) || ExploresStar(s, p, w, sub, y) || ExploresSeparator(s, p, w, sub, y)
  {
    hide Shadowed, KidsOf, ExploresLiteral, ExploresStar, ExploresSeparator;
  }

  lemma LiteralMeans(s: Shape, p: string, w: string, sub: string, y: string)
    requires w != "" && sub != "" && ExploresLiteral(s, p, w, sub, y)
    ensures w[0] == sub[0] && y != "" && y == [sub[0]] + y[1..] && Explores(s, p + [w[0]], w[1..], sub[1..], y[1..])
  {
    hide Explores;
  }

  lemma StarMeans(s: Shape, p: string, w: string, sub: string, y: string) returns (k: nat)
    requires w != "" && sub != "" && ExploresStar(s, p, w, sub, y)
    ensures w[0] == '*' && k < |sub| && k <= |y| && y == sub[..k] + y[k..]
      && Explores(s, p + [w[0]], w[1..], sub[k..], y[k..])
  {
    hide Explores;
    k :| 0 <= k < |sub| && k <= |y| && y[..k] == sub[..k] && Explores(s, p + [w[0]], w[1..], sub[k..], y[k..]);
  }

  lemma SeparatorMeans(s: Shape, p: string, w: string, sub: string, y: string)
    requires w != "" && sub != "" && ExploresSeparator(s, p, w, sub, y)
    ensures w[0] == '^' && IsSeparator(sub[0]) && Explores(s, p + [w[0]], w[1..], sub, y)
  {
    hide Explores, IsSeparator;
  }

  /** Where a hit comes from. */
  lemma HitCases(s: Shape, p: string, sub: string, t: string, applies: Test, r: Rule)
    requires p in s && sub != "" && r in Hits(s, p, sub, t, applies)
    ensures r in NodeHits(s, p, t, applies) || r in LiteralHits(s, p, sub, t, applies)
      || exists c ::
        c in KidsOf(s, p) && !Shadowed(KidsOf(s, p), c, sub[0]) && r in SideHitsOf(s, p, sub, t, applies, c)
  {
    hide *;
    var w, y := HitElim(s, p, sub, t, applies, r);
    ExploreCases(s, p, w, sub, y);
    if w == "" {
      NodeHitIntro(s, p, t, applies, r);
      assert p + w == p && t + y == t;
    } else {
      var c, v := w[0], w[1..];
      SideHitsOfIs(s, p, sub, t, applies, c);
      if ExploresLiteral(s, p, w, sub, y) {
        LiteralMeans(s, p, w, sub, y);
        Reassociate(p, [c], v, t, [c], y[1..]);
        HitIntro(s, p + [c], sub[1..], t + [c], applies, r, v, y[1..]);
        LiteralHitsAre(s, p, sub, t, applies);
      } else if ExploresStar(s, p, w, sub, y) {
        var k := StarMeans(s, p, w, sub, y);
        Reassociate(p, [c], v, t, sub[..k], y[k..]);
        HitIntro(s, p + [c], sub[k..], t + sub[..k], applies, r, v, y[k..]);
        StarHitsIs(s, p + [c], sub, t, applies, |sub|, r);
      } else {
        SeparatorMeans(s, p, w, sub, y);
        Reassociate(p, [c], v, t, "", y);
        HitIntro(s, p + [c], sub, t, applies, r, v, y);
      }
    }
  }

  lemma NodeHitIntro(s: Shape, p: string, t: string, applies: Test, r: Rule)
    ensures r in RulesOf(s, p) && applies(r, t) ==> r in NodeHits(s, p, t, applies)
  {}

  lemma LiteralHitsAre(s: Shape, p: string, sub: string, t: string, applies: Test)
    requires sub != ""
    ensures LiteralHits(s, p, sub, t, applies) ==
      if sub[0] in KidsOf(s, p) then Hits(s, p + [sub[0]], sub[1..], t + [sub[0]], applies) else iset{}
  {
    hide Hits;
  }

  lemma SideHit(s: Shape, p: string, sub: string, t: string, applies: Test, r: Rule, c: char)
    requires WellFormed(s) && p in s && sub != "" && c in KidsOf(s, p) && !Shadowed(KidsOf(s, p), c, sub[0])
    requires r in SideHitsOf(s, p, sub, t, applies, c)
    ensures r in Hits(s, p, sub, t, applies)
  {
    hide Hits;
    if c == '*' {
      StarHitsIs(s, p + [c], sub, t, applies, |sub|, r);
      var k :| 0 <= k < |sub| && r in Hits(s, p + [c], sub[k..], t + sub[..k], applies);
      HitByStar(s, p, sub, t, applies, r, k);
    } else {
      HitBySeparator(s, p, sub, t, applies, r);
    }
  }

  /** The children that are not hidden are those shown. */
  lemma ShownKids(kids: seq<char>, next: char, n: nat)
    requires Distinct(kids) && Shown(kids, next, n)
    ensures forall j :: 0 <= j < |kids| ==> (j < n <==> !Shadowed(kids, kids[j], next))
  {}

  /** One step of the search. */
  lemma HitsStep(s: Shape, p: string, sub: string, t: string, applies: Test, n: nat)
    requires WellFormed(s) && p in s && sub != "" && Shown(KidsOf(s, p), sub[0], n)
    ensures Hits(s, p, sub, t, applies)
         == NodeHits(s, p, t, applies) + SideHits(s, p, sub, t, applies, n) + LiteralHits(s, p, sub, t, applies)
  {
    HitAtEnd(s, p, t, applies, sub);
    assert Distinct(KidsOf(s, p));
    ShownKids(KidsOf(s, p), sub[0], n);
    hide Hits, NodeHits, SideHits, LiteralHits, SideHitsOf, WellFormed, Shadowed, KidsOf, Shown, Distinct;
    forall r
      ensures r in Hits(s, p, sub, t, applies) <==>
        r in NodeHits(s, p, t, applies) || r in SideHits(s, p, sub, t, applies, n)
          || r in LiteralHits(s, p, sub, t, applies)
    {
      SideHitsIs(s, p, sub, t, applies, n, r);
      if r in Hits(s, p, sub, t, applies) {
        HitCases(s, p, sub, t, applies, r);
      } else {
        LiteralHitsAre(s, p, sub, t, applies);
        if r in LiteralHits(s, p, sub, t, applies) {
          HitByLiteral(s, p, sub, t, applies, r);
        }
        if r in SideHits(s, p, sub, t, applies, n) {
          var j :| 0 <= j < n && r in SideHitsOf(s, p, sub, t, applies, KidsOf(s, p)[j]);
          SideHit(s, p, sub, t, applies, r, KidsOf(s, p)[j]);
        }
      }
    }
  }

  // ---------- Collecting answers ----------

  /** No exception so far, and the answer is the one that the hits so far decide. */
  ghost predicate Pending(result: CheckResult, hits: iset<Rule>) {
    !result.Exception? && Decides(result, hits)
  }

  /** How an answer and a later one are put together. */
  lemma Collected(result: CheckResult, hits: iset<Rule>, current: CheckResult, more: iset<Rule>, both: iset<Rule>)
    requires Pending(result, hits) && Decides(current, more) && both == hits + more
    ensures match current
      case NoResult => Pending(result, both)
      case Blocked(_) => Pending(current, both)
      case Exception(_) => Decides(current, both)
  {}

  lemma PendingDecides(result: CheckResult, hits: iset<Rule>)
    requires Pending(result, hits)
    ensures Decides(result, hits)
  {}

  lemma DecidesPending(result: CheckResult, hits: iset<Rule>)
    requires Decides(result, hits) && !result.Exception?
    ensures Pending(result, hits)
  {}

  lemma NothingPending()
    ensures Pending(NoResult, iset{})
  {}

  /** The rules that apply among the first `n` of a node. */
  ghost function NodeHitsUpTo(s: Shape, p: string, t: string, applies: Test, n: nat): iset<Rule>
    requires n <= |RulesOf(s, p)|
  {
    iset r | r in RulesOf(s, p)[..n] && applies(r, t)
  }

  lemma NodeHitsStart(s: Shape, p: string, t: string, applies: Test)
    ensures Pending(NoResult, NodeHitsUpTo(s, p, t, applies, 0))
  {}

  lemma NodeHitsNext(s: Shape, p: string, t: string, applies: Test, i: nat, result: CheckResult)
    requires i < |RulesOf(s, p)| && Pending(result, NodeHitsUpTo(s, p, t, applies, i))
    ensures var current := CheckRuleMatch(RulesOf(s, p)[i], t, applies);
      match current
      case NoResult => Pending(result, NodeHitsUpTo(s, p, t, applies, i + 1))
      case Blocked(_) => Pending(current, NodeHitsUpTo(s, p, t, applies, i + 1))
      case Exception(_) => Decides(current, NodeHits(s, p, t, applies))
  {
    hide RulesOf;
    var rules := RulesOf(s, p);
    assert rules[..i + 1] == rules[..i] + [rules[i]];
    assert NodeHitsUpTo(s, p, t, applies, i + 1)
      == NodeHitsUpTo(s, p, t, applies, i) + (if applies(rules[i], t) then iset{rules[i]} else iset{});
  }

  lemma NodeHitsEnd(s: Shape, p: string, t: string, applies: Test, result: CheckResult)
    requires Pending(result, NodeHitsUpTo(s, p, t, applies, |RulesOf(s, p)|))
    ensures Decides(result, NodeHits(s, p, t, applies))
  {
    assert RulesOf(s, p)[..|RulesOf(s, p)|] == RulesOf(s, p);
  }

  lemma ExceptionDecides(result: CheckResult, hits: iset<Rule>, more: iset<Rule>)
    requires Decides(result, hits) && result.Exception? && hits <= more
    ensures Decides(result, more)
  {}

  /** How many children the loop over the children looks at. */
  function ShownCount(kids: seq<char>, next: char): (n: nat)
    ensures n <= |kids|
  {
    if kids == [] then 0 else if kids[0] == next then 1 else 1 + ShownCount(kids[1..], next)
  }

  lemma {:induction false} ShownCountIs(kids: seq<char>, next: char)
    ensures Shown(kids, next, ShownCount(kids, next))
    ensures forall j :: 0 <= j < ShownCount(kids, next) - 1 ==> kids[j] != next
  {
    if kids != [] && kids[0] != next {
      ShownCountIs(kids[1..], next);
      assert forall j :: 0 < j < |kids| ==> kids[j] == kids[1..][j - 1];
    }
  }

  lemma {:induction false} SideHitsGrow(s: Shape, p: string, sub: string, t: string, applies: Test, m: nat, n: nat)
    requires sub != "" && m <= n <= |KidsOf(s, p)|
    ensures SideHits(s, p, sub, t, applies, m) <= SideHits(s, p, sub, t, applies, n)
  {
    hide SideHitsOf;
    if m < n {
      SideHitsGrow(s, p, sub, t, applies, m, n - 1);
    }
  }

  lemma {:induction false} StarHitsGrow(s: Shape, q: string, sub: string, t: string, applies: Test, m: nat, n: nat)
    requires m <= n <= |sub|
    ensures StarHits(s, q, sub, t, applies, m) <= StarHits(s, q, sub, t, applies, n)
  {
    hide Hits;
    if m < n {
      StarHitsGrow(s, q, sub, t, applies, m, n - 1);
    }
  }

  lemma StarHitsStep(s: Shape, q: string, sub: string, t: string, applies: Test, n: nat)
    requires n <= |sub|
    ensures n == 0 ==> Pending(NoResult, StarHits(s, q, sub, t, applies, n))
    ensures n > 0 ==>
      StarHits(s, q, sub, t, applies, n)
        == StarHits(s, q, sub, t, applies, n - 1) + Hits(s, q, sub[n - 1..], t + sub[..n - 1], applies)
  {
    hide Hits;
  }

  lemma SideHitsOfIs(s: Shape, p: string, sub: string, t: string, applies: Test, c: char)
    requires sub != ""
    ensures SideHitsOf(s, p, sub, t, applies, c) ==
      if c == '*' then StarHits(s, p + [c], sub, t, applies, |sub|)
      else if c == '^' && IsSeparator(sub[0]) then Hits(s, p + [c], sub, t, applies)
      else iset{}
  {
    hide Hits, StarHits;
  }

  lemma SideHitsStep(s: Shape, p: string, sub: string, t: string, applies: Test, n: nat)
    requires sub != "" && n <= |KidsOf(s, p)|
    ensures n == 0 ==> Pending(NoResult, SideHits(s, p, sub, t, applies, n))
    ensures n > 0 ==>
      SideHits(s, p, sub, t, applies, n)
        == SideHits(s, p, sub, t, applies, n - 1) + SideHitsOf(s, p, sub, t, applies, KidsOf(s, p)[n - 1])
  {
    hide SideHitsOf, KidsOf;
  }

  lemma ShownIs(kids: seq<char>, next: char, n: nat)
    requires Shown(kids, next, n)
    ensures if next in kids then 0 < n <= |kids| && kids[n - 1] == next else n == |kids|
  {}

  /** The rules hit at a node and below its children, other than by the next character. */
  ghost function StepHits(s: Shape, p: string, sub: string, t: string, applies: Test): iset<Rule>
    requires sub != ""
  {
    NodeHits(s, p, t, applies) + SideHits(s, p, sub, t, applies, ShownCount(KidsOf(s, p), sub[0]))
  }

  lemma StepHitsAre(s: Shape, p: string, sub: string, t: string, applies: Test)
    requires sub != ""
    ensures StepHits(s, p, sub, t, applies)
         == NodeHits(s, p, t, applies) + SideHits(s, p, sub, t, applies, ShownCount(KidsOf(s, p), sub[0]))
  {
    hide NodeHits, SideHits;
  }

  /** One step of the search as the search makes it. */
  lemma SearchStep(s: Shape, p: string, sub: string, t: string, applies: Test)
    requires WellFormed(s) && p in s && sub != ""
    ensures Hits(s, p, sub, t, applies) ==
      if sub[0] in KidsOf(s, p)
        then StepHits(s, p, sub, t, applies) + Hits(s, p + [sub[0]], sub[1..], t + [sub[0]], applies)
      else StepHits(s, p, sub, t, applies)
  {
    ShownCountIs(KidsOf(s, p), sub[0]);
    HitsStep(s, p, sub, t, applies, ShownCount(KidsOf(s, p), sub[0]));
    LiteralHitsAre(s, p, sub, t, applies);
    hide Hits, NodeHits, SideHits, WellFormed, LiteralHits;
  }

  /** The rules hit by the search from the first `n` characters on. */
  ghost function UrlHitsUpTo(s: Shape, url: string, applies: Test, n: nat): iset<Rule>
    requires n <= |url|
  {
    if n == 0 then iset{} else UrlHitsUpTo(s, url, applies, n - 1) + Hits(s, "", url[n - 1..], "", applies)
  }

  lemma UrlHitsStep(s: Shape, url: string, applies: Test, n: nat)
    requires n <= |url|
    ensures n == 0 ==> Pending(NoResult, UrlHitsUpTo(s, url, applies, n))
    ensures n > 0 ==>
      UrlHitsUpTo(s, url, applies, n) == UrlHitsUpTo(s, url, applies, n - 1) + Hits(s, "", url[n - 1..], "", applies)
  {
    hide Hits;
  }

  lemma {:induction false} UrlHitsUpToIs(s: Shape, url: string, applies: Test, n: nat, r: Rule)
    requires n <= |url|
    ensures r in UrlHitsUpTo(s, url, applies, n) <==> exists i :: 0 <= i < n && IsHit(s, "", url[i..], "", applies, r)
  {
    hide IsHit;
    if n > 0 {
      UrlHitsUpToIs(s, url, applies, n - 1, r);
    }
  }

  lemma UrlHitsAre(s: Shape, url: string, applies: Test, n: nat)
    requires n <= |url|
    ensures UrlHitsUpTo(s, url, applies, n) <= UrlHits(s, url, applies)
    ensures n == |url| ==> UrlHitsUpTo(s, url, applies, n) == UrlHits(s, url, applies)
  {
    forall r
      ensures r in UrlHitsUpTo(s, url, applies, n) ==> r in UrlHits(s, url, applies)
      ensures n == |url| && r in UrlHits(s, url, applies) ==> r in UrlHitsUpTo(s, url, applies, n)
    {
      UrlHitsUpToIs(s, url, applies, n, r);
      hide IsHit;
    }
  }

  // ---------- Depth ----------

  function Prefixes(p: string): set<string> {
    if p == "" then {""} else {p} + Prefixes(p[..|p| - 1])
  }

  lemma {:induction false} PrefixCount(p: string)
    ensures |Prefixes(p)| == |p| + 1 && forall q :: q in Prefixes(p) ==> |q| <= |p|
  {
    if p != "" {
      PrefixCount(p[..|p| - 1]);
    }
  }

  lemma {:induction false} PrefixesPresent(s: Shape, p: string)
    requires WellFormed(s) && p in s
    ensures Prefixes(p) <= s.Keys
  {
    if p != "" {
      assert IsChild(s, p);
      PrefixesPresent(s, p[..|p| - 1]);
    }
  }

  /** Paths are shorter than there are nodes, so going from a node to a child ends. */
  lemma DepthBound(s: Shape, p: string)
    requires WellFormed(s) && p in s
    ensures |p| < |s.Keys|
  {
    PrefixesPresent(s, p);
    PrefixCount(p);
    SubsetSize(Prefixes(p), s.Keys);
  }

  lemma SubsetSize(a: set<string>, b: set<string>)
    requires a <= b
    ensures |a| <= |b|
  {
    assert b == a + (b - a);
  }
}
