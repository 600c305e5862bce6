/** The trie of content blocking rules on the heap: insertion of a rule, and the search for the rules that an address
    hits. */
module RuleTrie {
  import opened Wrappers
  import opened TrieShape
  import opened TrieSearch
  import opened TrieHits
  import opened TrieSteps

  class Node {
    const value: char
    var children: seq<Node>
    var rules: seq<Rule>

    constructor (c: char)
      ensures value == c && children == [] && rules == []
    {
      value, children, rules := c, [], [];
    }

    ghost function Content(): Slot
      reads this
    {
      Slot(children, rules)
    }

    /** Makes a child; one for a separator comes first, others come last. */
    method AddChild(c: char) returns (next: Node)
      modifies this
      ensures fresh(next) && next.value == c && next.Content() == Slot([], [])
      ensures Content() == old(Content()).With(next)
    {
      next := new Node(c);
      if c == '^' {
        children := [next] + children;
      } else {
        children := children + [next];
      }
    }
  }

  /** What a node holds. */
  datatype Slot = Slot(children: seq<Node>, rules: seq<Rule>) {
    /** With one more child, in its place. */
    ghost function With(next: Node): Slot {
      Slot(if next.value == '^' then [next] + children else children + [next], rules)
    }
  }

  /** The characters of some nodes. */
  ghost function Values(nodes: seq<Node>): (v: seq<char>)
    ensures |v| == |nodes| && forall j :: 0 <= j < |nodes| ==> v[j] == nodes[j].value
  {
    seq(|nodes|, j requires 0 <= j < |nodes| => nodes[j].value)
  }

  class Profile {
    const root: Node
    /** Which node each path leads to. */
    ghost var nodes: map<string, Node>

    ghost predicate Valid()
      reads this, nodes.Values
    {
      && "" in nodes && nodes[""] == root
      && Injective(nodes)
      && Linked(nodes, Slots())
      && WellFormed(Shape())
    }

    /** What each node holds. */
    ghost function Slots(): (slots: map<string, Slot>)
      reads this, nodes.Values
      ensures slots.Keys == nodes.Keys
    {
      map p | p in nodes :: nodes[p].Content()
    }

    /** The trie as a value. */
    ghost function Shape(): (s: Shape)
      reads this, nodes.Values
      ensures s.Keys == nodes.Keys
    {
      ShapeOf(Slots())
    }

    constructor ()
      ensures Valid() && Shape() == EMPTY
      ensures fresh(nodes.Values)
    {
      var node := new Node('\0');
      root := node;
      nodes := map["" := node];
      new;
      assert Slots() == map["" := Slot([], [])];
      hide *;
      EmptySound();
      EmptyTrie(node);
      ValidIntro();
    }

    // ---------- Insertion ----------

    lemma KidsAre(node: Node, p: string)
      requires Valid() && p in nodes && nodes[p] == node
      ensures KidsOf(Shape(), p) == Values(node.children)
    {
      hide WellFormed, Injective, Linked;
    }

    lemma ChildAt(node: Node, p: string, j: nat)
      requires Valid() && p in nodes && nodes[p] == node && j < |node.children|
      ensures var d := node.children[j]; p + [d.value] in nodes && nodes[p + [d.value]] == d
    {
      hide WellFormed, Injective;
      assert Slots()[p].children == node.children;
      assert node.children[j] in Slots()[p].children;
    }

    lemma RootAt()
      requires Valid()
      ensures "" in nodes && nodes[""] == root
    {}

    /** Goes from a node to its child for a character, making one if there is none. */
    method Descend(node: Node, c: char, ghost p: string) returns (next: Node)
      requires Valid() && p in nodes && nodes[p] == node
      modifies this`nodes, node
      ensures Valid() && Shape() == WithChild(old(Shape()), p, c)
      ensures p + [c] in nodes && nodes[p + [c]] == next
      ensures fresh(nodes.Values - old(nodes.Values))
    {
      hide *;
      KidsAre(node, p);
      var j := 0;
      while j < |node.children|
        invariant j <= |node.children| && c !in Values(node.children)[..j]
      {
        var nextNode := node.children[j];
        if nextNode.value == c {
          ChildAt(node, p, j);
          assert Values(node.children)[j] == c;
          ChildPresent(Shape(), p, c);
          return nextNode;
        }
        j := j + 1;
      }
      next := AddChild(node, c, p);
    }

    /** Makes a child of the node at `p`. */
    method AddChild(node: Node, c: char, ghost p: string) returns (next: Node)
      requires Valid() && p in nodes && nodes[p] == node && c !in KidsOf(Shape(), p)
      modifies this`nodes, node
      ensures Valid() && Shape() == WithChild(old(Shape()), p, c)
      ensures p + [c] in nodes && nodes[p + [c]] == next
      ensures fresh(nodes.Values - old(nodes.Values))
    {
      hide *;
      ghost var s, slots, n := Shape(), Slots(), nodes;
      ValidMeans();
      ChildIsNew(s, p, c);
      next := Attach(node, c, p);
      LinkedAfter(n, slots, p, c, next);
      InjectiveAfter(n, p + [c], next);
      ShapeAfter(slots, p, c, next);
      WithChildSound(s, p, c);
      ValidIntro();
    }

    /** Puts a new child into the heap. */
    method Attach(node: Node, c: char, ghost p: string) returns (next: Node)
      requires p in nodes && nodes[p] == node && Injective(nodes) && p + [c] !in nodes
      modifies this`nodes, node
      ensures fresh(next) && next.value == c && nodes == old(nodes)[p + [c] := next]
      ensures Slots() == Added(old(Slots()), p, c, next)
    {
      next := node.AddChild(c);
      assert |p + [c]| != |p|;
      nodes := nodes[p + [c] := next];
    }

    lemma ValidMeans()
      requires Valid()
      ensures "" in nodes && nodes[""] == root && Injective(nodes) && Linked(nodes, Slots()) && WellFormed(Shape())
      ensures Shape() == ShapeOf(Slots())
    {}

    lemma ValidIntro()
      requires "" in nodes && nodes[""] == root && Injective(nodes) && Linked(nodes, Slots())
        && WellFormed(ShapeOf(Slots()))
      ensures Valid() && Shape() == ShapeOf(Slots())
    {}

    lemma TakeNext(line: string, i: nat)
      requires i < |line|
      ensures line[..i + 1] == line[..i] + [line[i]]
    {}

    /** Adds a rule to the node of its pattern. */
    method Insert(line: string, definition: Rule)
      requires Valid()
      modifies this`nodes, nodes.Values
      ensures Valid() && Shape() == TrieShape.Insert(old(Shape()), line, definition)
      ensures fresh(nodes.Values - old(nodes.Values))
    {
      hide *;
      RootAt();
      ghost var s := Shape();
      WithPathUnfold(s, "", ' ');
      var node := root;
      for i := 0 to |line|
        invariant Valid() && Shape() == WithPath(s, line[..i])
        invariant line[..i] in nodes && nodes[line[..i]] == node
        invariant fresh(nodes.Values - old(nodes.Values))
      {
        ghost var before := nodes.Values;
        assert node in before;
        node := Descend(node, line[i], line[..i]);
        TakeNext(line, i);
        WithPathUnfold(s, line[..i], line[i]);
      }
      assert line[..|line|] == line;
      assert node in nodes.Values;
      AddRule(node, definition, line);
      InsertIs(s, line, definition);
    }

    /** Adds the rules of a list one after the other. */
    method InsertAll(rules: seq<(string, Rule)>)
      requires Valid() && Shape() == EMPTY
      modifies this`nodes, nodes.Values
      ensures Valid() && Shape() == Build(rules)
    {
      hide *;
      BuildEmpty();
      for i := 0 to |rules|
        invariant Valid() && Shape() == Build(rules[..i])
        invariant fresh(nodes.Values - old(nodes.Values))
      {
        var (pattern, rule) := rules[i];
        Insert(pattern, rule);
        assert rules[..i + 1] == rules[..i] + [(pattern, rule)];
        BuildUnfold(rules[..i], pattern, rule);
      }
      assert rules[..|rules|] == rules;
    }

    /** Adds a rule to the node at `p`. */
    method AddRule(node: Node, definition: Rule, ghost p: string)
      requires Valid() && p in nodes && nodes[p] == node
      modifies node`rules
      ensures Valid() && Shape()
        == old(Shape())[p := Entry(KidsOf(old(Shape()), p), RulesOf(old(Shape()), p) + [definition])]
    {
      hide *;
      ValidMeans();
      ghost var slots := Slots();
      AppendRule(node, definition, p);
      RulesAfter(nodes, slots, p, definition);
      ValidIntro();
    }

    /** Puts a new rule into the heap. */
    method AppendRule(node: Node, definition: Rule, ghost p: string)
      requires p in nodes && nodes[p] == node && Injective(nodes)
      modifies node`rules
      ensures Slots() == old(Slots())[p := Slot(old(Slots())[p].children, old(Slots())[p].rules + [definition])]
    {
      node.rules := node.rules + [definition];
    }

    // ---------- Search ----------

    /** Tests the rules of a node. */
    method EvaluateNodeRules(node: Node, currentRule: string, applies: Test,
            ghost p: string) returns (result: CheckResult)
      requires Valid() && p in nodes && nodes[p] == node
      ensures Decides(result, NodeHits(Shape(), p, currentRule, applies))
    {
      hide *;
      ghost var s := Shape();
      RulesAre(node, p);
      result := NoResult;
      NodeHitsStart(s, p, currentRule, applies);
      for i := 0 to |node.rules|
        invariant Pending(result, NodeHitsUpTo(s, p, currentRule, applies, i))
      {
        var current := CheckRuleMatch(node.rules[i], currentRule, applies);
        NodeHitsNext(s, p, currentRule, applies, i, result);
        if current.Blocked? {
          result := current;
        } else if current.Exception? {
          return current;
        }
      }
      NodeHitsEnd(s, p, currentRule, applies, result);
    }

    lemma RulesAre(node: Node, p: string)
      requires Valid() && p in nodes && nodes[p] == node
      ensures RulesOf(Shape(), p) == node.rules
    {
      hide WellFormed, Injective, Linked;
    }

    /** Searches below a star: it may take up any run of characters that leaves some over. */
    method CheckWildcard(nextNode: Node, wildcardSubString: string, currentRule: string, applies: Test, ghost q: string)
      returns (result: CheckResult)
      requires Valid() && q in nodes && nodes[q] == nextNode
      ensures Decides(result, StarHits(Shape(), q, wildcardSubString, currentRule, applies, |wildcardSubString|))
      decreases |nodes.Keys| - |q|, 2
    {
      hide *;
      DepthOk(q);
      ghost var s := Shape();
      var sub := wildcardSubString;
      result := NoResult;
      StarHitsStep(s, q, sub, currentRule, applies, 0);
      for k := 0 to |sub|
        invariant Pending(result, StarHits(s, q, sub, currentRule, applies, k))
      {
        var current := CheckUrlSubstring(nextNode, sub[k..], currentRule + sub[..k], applies, q);
        StarHitsStep(s, q, sub, currentRule, applies, k + 1);
        Collected(result, StarHits(s, q, sub, currentRule, applies, k), current,
          Hits(s, q, sub[k..], currentRule + sub[..k], applies),
                  StarHits(s, q, sub, currentRule, applies, k + 1));
        if current.Blocked? {
          result := current;
        } else if current.Exception? {
          StarHitsGrow(s, q, sub, currentRule, applies, k + 1, |sub|);
          ExceptionDecides(current, StarHits(s, q, sub, currentRule, applies, k + 1),
              StarHits(s, q, sub, currentRule, applies, |sub|));
          return current;
        }
      }
      PendingDecides(result, StarHits(s, q, sub, currentRule, applies, |sub|));
    }

    /** Searches below a child in other ways than by its own character. */
    method CheckChild(nextNode: Node, sub: string, currentRule: string, applies: Test, ghost p: string)
      returns (result: CheckResult)
      requires Valid() && sub != "" && p + [nextNode.value] in nodes && nodes[p + [nextNode.value]] == nextNode
      ensures Decides(result, SideHitsOf(Shape(), p, sub, currentRule, applies, nextNode.value))
      decreases |nodes.Keys| - |p| - 1, 3
    {
      hide *;
      SideHitsOfIs(Shape(), p, sub, currentRule, applies, nextNode.value);
      result := NoResult;
      NothingPending();
      PendingDecides(NoResult, iset{});
      if nextNode.value == '*' {
        result := CheckWildcard(nextNode, sub, currentRule, applies, p + [nextNode.value]);
      }
      if nextNode.value == '^' && IsSeparator(sub[0]) {
        result := CheckUrlSubstring(nextNode, sub, currentRule, applies, p + [nextNode.value]);
      }
    }

    /** Searches below the children up to the one for the next character, which ends the loop. */
    method CheckChildren(node: Node, sub: string, currentRule: string, applies: Test, ghost p: string)
      returns (result: CheckResult, next: Option<Node>)
      requires Valid() && sub != "" && p in nodes && nodes[p] == node
      ensures Decides(result, SideHits(Shape(), p, sub, currentRule, applies, ShownCount(KidsOf(Shape(), p), sub[0])))
      ensures !result.Exception? ==> (next.Some? <==> sub[0] in KidsOf(Shape(), p))
      ensures next.Some? ==> p + [sub[0]] in nodes && nodes[p + [sub[0]]] == next.value
      decreases |nodes.Keys| - |p|, 0, 0
    {
      hide *;
      DepthOk(p);
      KidsAre(node, p);
      ghost var s, kids := Shape(), KidsOf(Shape(), p);
      ShownCountIs(kids, sub[0]);
      ShownIs(kids, sub[0], ShownCount(kids, sub[0]));
      ghost var n := ShownCount(kids, sub[0]);
      result, next := NoResult, None;
      var j := 0;
      SideHitsStep(s, p, sub, currentRule, applies, 0);
      while j < |node.children|
        invariant j <= n <= |kids| && sub[0] !in kids[..j]
        invariant Pending(result, SideHits(s, p, sub, currentRule, applies, j))
      {
        var nextNode := node.children[j];
        ChildAt(node, p, j);
        var current := CheckChild(nextNode, sub, currentRule, applies, p);
        SideHitsStep(s, p, sub, currentRule, applies, j + 1);
        Collected(result, SideHits(s, p, sub, currentRule, applies, j), current,
          SideHitsOf(s, p, sub, currentRule, applies, kids[j]),
                  SideHits(s, p, sub, currentRule, applies, j + 1));
        if current.Blocked? {
          result := current;
        } else if current.Exception? {
          SideHitsGrow(s, p, sub, currentRule, applies, j + 1, n);
          ExceptionDecides(current, SideHits(s, p, sub, currentRule, applies, j + 1),
              SideHits(s, p, sub, currentRule, applies, n));
          return current, None;
        }
        if nextNode.value == sub[0] {
          next := Some(nextNode);
          PendingDecides(result, SideHits(s, p, sub, currentRule, applies, j + 1));
          return;
        }
        j := j + 1;
      }
      PendingDecides(result, SideHits(s, p, sub, currentRule, applies, j));
    }

    /** Tests a node's rules and searches below its children, up to the one for the next character. */
    method CheckNode(node: Node, sub: string, currentRule: string, applies: Test, ghost p: string)
      returns (result: CheckResult, next: Option<Node>)
      requires Valid() && sub != "" && p in nodes && nodes[p] == node
      ensures Decides(result, StepHits(Shape(), p, sub, currentRule, applies))
      ensures !result.Exception? ==> (next.Some? <==> sub[0] in KidsOf(Shape(), p))
      ensures next.Some? ==> p + [sub[0]] in nodes && nodes[p + [sub[0]]] == next.value
      decreases |nodes.Keys| - |p|, 0, 1
    {
      hide *;
      ghost var s := Shape();
      StepHitsAre(s, p, sub, currentRule, applies);
      ghost var here, side := NodeHits(s, p, currentRule, applies),
                              SideHits(s, p, sub, currentRule, applies, ShownCount(KidsOf(s, p), sub[0]));
      result := EvaluateNodeRules(node, currentRule, applies, p);
      if result.Exception? {
        ExceptionDecides(result, here, here + side);
        return result, None;
      }
      DecidesPending(result, here);
      var below, child := CheckChildren(node, sub, currentRule, applies, p);
      Collected(result, here, below, side, here + side);
      if below != NoResult {
        result := below;
      }
      if !result.Exception? {
        PendingDecides(result, here + side);
      }
      next := child;
    }

    /** Searches from a node, with a text behind and a text ahead. */
    method CheckUrlSubstring(node0: Node, subString: string, currentRule0: string, applies: Test, ghost p0: string)
      returns (result: CheckResult)
      requires Valid() && p0 in nodes && nodes[p0] == node0
      ensures Decides(result, Hits(Shape(), p0, subString, currentRule0, applies))
      decreases |nodes.Keys| - |p0|, 1
    {
      hide *;
      ValidMeans();
      ghost var s := Shape();
      ghost var all := Hits(s, p0, subString, currentRule0, applies);
      ghost var p, done := p0, iset{};
      var node, currentRule := node0, currentRule0;
      result := NoResult;
      NothingPending();
      SearchStarts(p0, subString, currentRule0, all);
      for i := 0 to |subString|
        invariant p == p0 + subString[..i] && p in nodes && nodes[p] == node
        invariant currentRule == currentRule0 + subString[..i]
        invariant Pending(result, done)
        invariant all == done + Hits(s, p, subString[i..], currentRule, applies)
      {
        var sub, treeChar := subString[i..], subString[i];
        DepthOk(p);
        SearchStep(s, p, sub, currentRule, applies);
        ghost var step := StepHits(s, p, sub, currentRule, applies);
        var current, next := CheckNode(node, sub, currentRule, applies, p);
        Collected(result, done, current, step, done + step);
        if current.Blocked? {
          result := current;
        } else if current.Exception? {
          ExceptionDecides(current, done + step, all);
          return current;
        }
        if next.None? {
          PendingDecides(result, done + step);
          return result;
        }
        SearchGoesOn(p0, subString, currentRule0, i);
        node := next.value;
        p := p + [treeChar];
        currentRule := currentRule + [treeChar];
        done := done + step;
      }
      assert subString[|subString|..] == "";
      HitAtEnd(s, p, currentRule, applies, "");
      result := CheckEnd(node, currentRule, applies, p, result, done);
    }

    /** Tests the rules of the node where the text ends, once more for each child for a separator. */
    method CheckEnd(node: Node, currentRule: string, applies: Test, ghost p: string, result0: CheckResult,
            ghost done: iset<Rule>)
      returns (result: CheckResult)
      requires Valid() && p in nodes && nodes[p] == node && Pending(result0, done)
      ensures Decides(result, done + NodeHits(Shape(), p, currentRule, applies))
    {
      hide *;
      ghost var here := NodeHits(Shape(), p, currentRule, applies);
      result := result0;
      var current := EvaluateNodeRules(node, currentRule, applies, p);
      Collected(result, done, current, here, done + here);
      if current.Blocked? {
        result := current;
      } else if current.Exception? {
        return current;
      }
      for i := 0 to |node.children|
        invariant Pending(result, done + here)
      {
        if node.children[i].value != '^' {
          continue;
        }
        current := EvaluateNodeRules(node, currentRule, applies, p);
        Collected(result, done + here, current, here, done + here);
        if current.Blocked? {
          result := current;
        } else if current.Exception? {
          return current;
        }
      }
      PendingDecides(result, done + here);
    }

    /** Searches an address from each of its characters on. */
    method CheckUrl(requestUrl: string, applies: Test) returns (result: CheckResult)
      requires Valid()
      ensures Decides(result, UrlHits(Shape(), requestUrl, applies))
    {
      hide *;
      RootAt();
      ghost var s := Shape();
      result := NoResult;
      UrlHitsStep(s, requestUrl, applies, 0);
      for i := 0 to |requestUrl|
        invariant Pending(result, UrlHitsUpTo(s, requestUrl, applies, i))
      {
        var current := CheckUrlSubstring(root, requestUrl[i..], "", applies, "");
        UrlHitsStep(s, requestUrl, applies, i + 1);
        UrlHitsAre(s, requestUrl, applies, i + 1);
        Collected(result, UrlHitsUpTo(s, requestUrl, applies, i), current, Hits(s, "", requestUrl[i..], "", applies),
                  UrlHitsUpTo(s, requestUrl, applies, i + 1));
        if current.Blocked? {
          result := current;
        } else if current.Exception? {
          ExceptionDecides(current, UrlHitsUpTo(s, requestUrl, applies, i + 1), UrlHits(s, requestUrl, applies));
          return current;
        }
      }
      UrlHitsAre(s, requestUrl, applies, |requestUrl|);
      PendingDecides(result, UrlHits(s, requestUrl, applies));
    }

    lemma DepthOk(p: string)
      requires Valid() && p in nodes
      ensures |p| < |nodes.Keys|
    {
      DepthBound(Shape(), p);
    }
  }

  lemma RulesAfter(nodes: map<string, Node>, slots: map<string, Slot>, p: string, rule: Rule)
    requires p in slots && Linked(nodes, slots) && WellFormed(ShapeOf(slots))
    ensures var slots', s := slots[p := Slot(slots[p].children, slots[p].rules + [rule])], ShapeOf(slots);
      && Linked(nodes, slots') && WellFormed(ShapeOf(slots'))
      && ShapeOf(slots') == s[p := Entry(KidsOf(s, p), RulesOf(s, p) + [rule])]
  {
    hide WellFormed, Linked;
    var slots' := slots[p := Slot(slots[p].children, slots[p].rules + [rule])];
    SameNodes(ShapeOf(slots), ShapeOf(slots'));
    SameChildren(nodes, slots, slots');
  }

  lemma SearchStarts(p: string, sub: string, t: string, all: iset<Rule>)
    ensures p + sub[..0] == p && t + sub[..0] == t && sub[0..] == sub && iset{} + all == all
  {}

  lemma SearchGoesOn(p: string, sub: string, t: string, i: nat)
    requires i < |sub|
    ensures p + sub[..i] + [sub[i]] == p + sub[..i + 1] && t + sub[..i] + [sub[i]] == t + sub[..i + 1]
    ensures sub[i..][0] == sub[i] && sub[i..][1..] == sub[i + 1..]
  {}

  lemma EmptyTrie(node: Node)
    ensures var nodes, slots := map["" := node], map["" := Slot([], [])];
      Injective(nodes) && Linked(nodes, slots) && ShapeOf(slots) == EMPTY
  {}

  lemma BuildEmpty()
    ensures Build([]) == EMPTY
  {}

  lemma InsertIs(s: Shape, line: string, definition: Rule)
    ensures var t := WithPath(s, line);
      TrieShape.Insert(s, line, definition) == t[line := Entry(KidsOf(t, line), RulesOf(t, line) + [definition])]
  {}

  lemma ChildPresent(s: Shape, p: string, c: char)
    requires c in KidsOf(s, p)
    ensures WithChild(s, p, c) == s
  {}

  ghost function ShapeOf(slots: map<string, Slot>): (s: Shape)
    ensures s.Keys == slots.Keys
  {
    map p | p in slots :: Entry(Values(slots[p].children), slots[p].rules)
  }

  /** A node's children are the nodes at the paths that go on from the node's own. */
  ghost predicate Linked(nodes: map<string, Node>, slots: map<string, Slot>) {
    forall p, c :: p in slots && c in slots[p].children ==> p + [c.value] in nodes && nodes[p + [c.value]] == c
  }

  lemma SameChildren(nodes: map<string, Node>, slots: map<string, Slot>, slots': map<string, Slot>)
    requires Linked(nodes, slots) && slots'.Keys == slots.Keys
    requires forall p :: p in slots ==> slots'[p].children == slots[p].children
    ensures Linked(nodes, slots')
  {}

  /** The nodes after a new one is put in. */
  ghost function Added(slots: map<string, Slot>, p: string, c: char, next: Node): map<string, Slot>
    requires p in slots
  {
    slots[p := slots[p].With(next)][p + [c] := Slot([], [])]
  }

  lemma LinkedAfter(nodes: map<string, Node>, slots: map<string, Slot>, p: string, c: char, next: Node)
    requires Linked(nodes, slots) && p in slots && p + [c] !in nodes && next.value == c
    ensures Linked(nodes[p + [c] := next], Added(slots, p, c, next))
  {
    assert |p + [c]| != |p|;
    var slots' := Added(slots, p, c, next);
    assert forall d :: d in slots'[p].children ==> d == next || d in slots[p].children;
  }

  lemma InjectiveAfter(nodes: map<string, Node>, q: string, next: Node)
    requires Injective(nodes) && next !in nodes.Values
    ensures Injective(nodes[q := next])
  {}

  ghost predicate Injective(nodes: map<string, Node>) {
    forall p, q :: p in nodes && q in nodes && nodes[p] == nodes[q] ==> p == q
  }

  lemma ShapeAfter(slots: map<string, Slot>, p: string, c: char, next: Node)
    requires p in slots && next.value == c && c !in KidsOf(ShapeOf(slots), p)
    ensures ShapeOf(Added(slots, p, c, next)) == WithChild(ShapeOf(slots), p, c)
  {
    var children := slots[p].children;
    assert Values([next] + children) == [c] + Values(children) && Values(children + [next]) == Values(children) + [c];
    assert |p + [c]| != |p|;
  }
}
