/** The trie of content blocking rules as a value: which nodes there are, their children in order, their rules. */
module TrieShape {
  import opened Common

  /** A rule: its line in the rule list, and whether it makes an exception. Its options belong to the rule's own
      test. */
  datatype Rule = Rule(line: string, isException: bool)

  /** The answer to a request. */
  datatype CheckResult = NoResult | Blocked(rule: Rule) | Exception(rule: Rule)

  /** A node's children, by the character they stand for, and its rules. */
  datatype Entry = Entry(kids: seq<char>, rules: seq<Rule>)

  /** The nodes of a trie, by the path that leads to them. */
  type Shape = map<string, Entry>

  /** Siblings differ, children exist, and every node but the root is a child. */
  ghost predicate WellFormed(s: Shape) {
    && "" in s
    && (forall p :: Distinct(KidsOf(s, p)))
    && (forall p, c :: c in KidsOf(s, p) ==> p + [c] in s)
    && (forall p {:trigger IsChild(s, p)} :: p in s && p != "" ==> IsChild(s, p))
  }

  predicate IsChild(s: Shape, p: string)
    requires p != ""
  {
    p[|p| - 1] in KidsOf(s, p[..|p| - 1])
  }

  const EMPTY: Shape := map["" := Entry([], [])]

  function KidsOf(s: Shape, p: string): seq<char> {
    if p in s then s[p].kids else []
  }

  function RulesOf(s: Shape, p: string): seq<Rule> {
    if p in s then s[p].rules else []
  }

  // ---------- Insertion ----------

  /** Makes sure that the node at `p` has a child for `c`; a new child for a separator comes first, others come last. */
  function WithChild(s: Shape, p: string, c: char): Shape {
    if c in KidsOf(s, p) then s
    else
      var kids := if c == '^' then [c] + KidsOf(s, p) else KidsOf(s, p) + [c];
      s[p := Entry(kids, RulesOf(s, p))][p + [c] := Entry([], [])]
  }

  /** Makes sure that there is a node at every prefix of the pattern. */
  function WithPath(s: Shape, pattern: string): Shape {
    if pattern == "" then s
    else
      var n := |pattern| - 1;
      WithChild(WithPath(s, pattern[..n]), pattern[..n], pattern[n])
  }

  /** Adds a rule to the node of its pattern. */
  function Insert(s: Shape, pattern: string, rule: Rule): Shape {
    var s' := WithPath(s, pattern);
    s'[pattern := Entry(KidsOf(s', pattern), RulesOf(s', pattern) + [rule])]
  }

  /** The trie of a rule list, each rule with its pattern. */
  function Build(rules: seq<(string, Rule)>): Shape {
    if rules == [] then EMPTY
    else
      var (pattern, rule) := rules[|rules| - 1];
      Insert(Build(rules[..|rules| - 1]), pattern, rule)
  }

  lemma PathSplit(p: string, c: char)
    ensures p + [c] != "" && (p + [c])[..|p|] == p && (p + [c])[|p|] == c
  {}

  lemma PathJoin(p: string)
    requires p != ""
    ensures p[..|p| - 1] + [p[|p| - 1]] == p
  {}

  /** What insertion does to the children. */
  lemma WithChildKids(s: Shape, p: string, c: char, q: string)
    ensures KidsOf(WithChild(s, p, c), q) ==
      if c in KidsOf(s, p) then KidsOf(s, q)
      else if q == p then (if c == '^' then [c] + KidsOf(s, p) else KidsOf(s, p) + [c])
      else if q == p + [c] then []
      else KidsOf(s, q)
  {
    assert |p + [c]| != |p|;
  }

  lemma WithPathUnfold(s: Shape, p: string, c: char)
    ensures WithPath(s, "") == s
    ensures WithPath(s, p + [c]) == WithChild(WithPath(s, p), p, c)
  {
    PathSplit(p, c);
    hide WithChild;
  }

  lemma WithChildEntries(s: Shape, p: string, c: char)
    requires p in s && c !in KidsOf(s, p) && p + [c] !in s
    ensures var s' := WithChild(s, p, c);
      && s'.Keys == s.Keys + {p + [c]}
      && KidsOf(s', p) == (if c == '^' then [c] + KidsOf(s, p) else KidsOf(s, p) + [c])
      && (forall q :: q != p ==> KidsOf(s', q) == KidsOf(s, q))
      && (forall q :: RulesOf(s', q) == RulesOf(s, q))
  {
    PathSplit(p, c);
  }

  lemma NewKids(kids: seq<char>, c: char)
    requires Distinct(kids) && c !in kids
    ensures Distinct([c] + kids) && Distinct(kids + [c])
  {}

  lemma ChildIsNew(s: Shape, p: string, c: char)
    requires WellFormed(s) && c !in KidsOf(s, p)
    ensures p + [c] !in s
  {
    PathSplit(p, c);
    if p + [c] in s && IsChild(s, p + [c]) {
      assert false;
    }
  }

  lemma WithChildSound(s: Shape, p: string, c: char)
    requires WellFormed(s) && p in s
    ensures WellFormed(WithChild(s, p, c)) && p + [c] in WithChild(s, p, c)
    ensures forall q :: q in s ==> q in WithChild(s, p, c)
    ensures forall q :: RulesOf(WithChild(s, p, c), q) == RulesOf(s, q)
  {
    if c !in KidsOf(s, p) {
      ChildIsNew(s, p, c);
      WithChildEntries(s, p, c);
      NewKids(KidsOf(s, p), c);
      WithChildWellFormed(s, WithChild(s, p, c), p, c);
      hide WellFormed;
    }
  }

  lemma WithChildWellFormed(s: Shape, s': Shape, p: string, c: char)
    requires WellFormed(s) && p in s && s'.Keys == s.Keys + {p + [c]}
    requires Distinct(KidsOf(s', p)) && Distinct(KidsOf(s', p + [c]))
    requires forall q :: q != p ==> KidsOf(s', q) == KidsOf(s, q)
    requires forall d :: d in KidsOf(s', p) <==> d == c || d in KidsOf(s, p)
    ensures WellFormed(s')
  {
    hide KidsOf, Distinct, IsChild;
    ParentsKept(s, s', p, c);
  }

  lemma ParentsKept(s: Shape, s': Shape, p: string, c: char)
    requires forall q {:trigger IsChild(s, q)} :: q in s && q != "" ==> IsChild(s, q)
    requires s'.Keys == s.Keys + {p + [c]}
    requires forall q :: q != p ==> KidsOf(s', q) == KidsOf(s, q)
    requires forall d :: d in KidsOf(s', p) <==> d == c || d in KidsOf(s, p)
    ensures forall q {:trigger IsChild(s', q)} :: q in s' && q != "" ==> IsChild(s', q)
  {
    hide KidsOf;
    PathSplit(p, c);
    forall q {:trigger IsChild(s', q)} | q in s' && q != ""
      ensures IsChild(s', q)
    {
      if q in s {
        assert IsChild(s, q);
      }
    }
  }

  lemma {:induction false} WithPathSound(s: Shape, pattern: string)
    requires WellFormed(s)
    ensures WellFormed(WithPath(s, pattern)) && pattern in WithPath(s, pattern)
    ensures forall q :: q in s ==> q in WithPath(s, pattern)
    ensures forall q :: RulesOf(WithPath(s, pattern), q) == RulesOf(s, q)
  {
    hide WithChild, WellFormed;
    if pattern == "" {
      RootPresent(s);
    } else {
      var n := |pattern| - 1;
      WithPathSound(s, pattern[..n]);
      WithChildSound(WithPath(s, pattern[..n]), pattern[..n], pattern[n]);
      PathJoin(pattern);
    }
  }

  lemma RootPresent(s: Shape)
    requires WellFormed(s)
    ensures "" in s
  {}

  /** Insertion keeps siblings distinct and every rule in its place, and adds exactly one. */
  lemma InsertSound(s: Shape, pattern: string, rule: Rule)
    requires WellFormed(s)
    ensures WellFormed(Insert(s, pattern, rule))
    ensures forall q ::
      RulesOf(Insert(s, pattern, rule), q) == if q == pattern then RulesOf(s, q) + [rule] else RulesOf(s, q)
  {
    WithPathSound(s, pattern);
    hide WithPath, WellFormed;
    SameNodes(WithPath(s, pattern), Insert(s, pattern, rule));
  }

  /** Rules do not matter for the structure. */
  lemma SameNodes(s: Shape, t: Shape)
    requires WellFormed(s) && s.Keys == t.Keys && forall q :: KidsOf(t, q) == KidsOf(s, q)
    ensures WellFormed(t)
  {
    hide KidsOf, Distinct;
    forall q {:trigger IsChild(t, q)} | q in t && q != ""
      ensures IsChild(t, q)
    {
      assert IsChild(s, q);
    }
  }
}
