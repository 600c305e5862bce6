/** What the search of a rule trie explores, and when this is what a scan over all rules would find. */
module TrieSearch {
  import opened TrieShape

  /** A class of characters to which the marks of a pattern do not belong. */
  type CharClass = f: char -> bool | !f('^') && !f('*') witness c => false

  /** The letters and digits, of which nothing else is known: any classification of characters will do. */
  const LETTERS_AND_DIGITS: CharClass

  /** The characters that a separator mark in a pattern stands before. */
  predicate IsSeparator(c: char) {
    !LETTERS_AND_DIGITS(c) && c != '_' && c != '-' && c != '.' && c != '%'
  }

  // ---------- What a pattern means ----------

  /** The pattern `w` matches the start `y` of the text `sub`. A star stands for any run of characters that leaves some
      of the text over, a separator mark for the empty text before a separator; both also stand for themselves. */
  ghost predicate Matches(w: string, sub: string, y: string)
    decreases |w|
  {
    if w == "" then y == ""
    else
      && sub != ""
      && (MatchesLiteral(w, sub, y) || MatchesStar(w, sub, y)
        || (w[0] == '^' && IsSeparator(sub[0]) && Matches(w[1..], sub, y)))
  }

  ghost predicate MatchesLiteral(w: string, sub: string, y: string)
    requires w != "" && sub != ""
    decreases |w|, 0
  {
    w[0] == sub[0] && y != "" && y[0] == sub[0] && Matches(w[1..], sub[1..], y[1..])
  }

  ghost predicate MatchesStar(w: string, sub: string, y: string)
    requires w != "" && sub != ""
    decreases |w|, 0
  {
    w[0] == '*' && exists k :: 0 <= k < |sub| && k <= |y| && y[..k] == sub[..k] && Matches(w[1..], sub[k..], y[k..])
  }

  // ---------- What the search explores ----------

  /** An earlier sibling of the child for `c` stands for the next character and stops the loop over the children. */
  predicate Shadowed(kids: seq<char>, c: char, next: char) {
    exists h, j :: 0 <= h < j < |kids| && kids[h] == next && kids[j] == c
  }

  /** The search that has come to the node `p` with the text `sub` left goes on to the node `p + w` by way of the text
      `y`. */
  ghost predicate Explores(s: Shape, p: string, w: string, sub: string, y: string)
    decreases |w|
  {
    && p in s
    && if w == "" then y == ""
       else
         && sub != "" && w[0] in KidsOf(s, p) && !Shadowed(KidsOf(s, p), w[0], sub[0])
         && (ExploresLiteral(s, p, w, sub, y) || ExploresStar(s, p, w, sub, y) || ExploresSeparator(s, p, w, sub, y))
  }

  ghost predicate ExploresLiteral(s: Shape, p: string, w: string, sub: string, y: string)
    requires w != "" && sub != ""
    decreases |w|, 0
  {
    w[0] == sub[0] && y != "" && y[0] == sub[0] && Explores(s, p + [w[0]], w[1..], sub[1..], y[1..])
  }

  ghost predicate ExploresStar(s: Shape, p: string, w: string, sub: string, y: string)
    requires w != "" && sub != ""
    decreases |w|, 0
  {
    && w[0] == '*'
    && exists k ::
      0 <= k < |sub| && k <= |y| && y[..k] == sub[..k] && Explores(s, p + [w[0]], w[1..], sub[k..], y[k..])
  }

  ghost predicate ExploresSeparator(s: Shape, p: string, w: string, sub: string, y: string)
    requires w != "" && sub != ""
    decreases |w|, 0
  {
    w[0] == '^' && IsSeparator(sub[0]) && Explores(s, p + [w[0]], w[1..], sub, y)
  }

  /** A match is a piece of the text. */
  lemma {:induction false} MatchIsPrefix(w: string, sub: string, y: string)
    requires Matches(w, sub, y)
    ensures y <= sub
  {
    if w != "" {
      if MatchesLiteral(w, sub, y) {
        MatchIsPrefix(w[1..], sub[1..], y[1..]);
        assert y == [y[0]] + y[1..] && sub == [sub[0]] + sub[1..];
      } else if MatchesStar(w, sub, y) {
        var k :| 0 <= k < |sub| && k <= |y| && y[..k] == sub[..k] && Matches(w[1..], sub[k..], y[k..]);
        MatchIsPrefix(w[1..], sub[k..], y[k..]);
        assert y == y[..k] + y[k..] && sub == sub[..k] + sub[k..];
      } else {
        MatchIsPrefix(w[1..], sub, y);
      }
    }
  }

  /** Whatever the trie, the search goes only where the patterns match. */
  lemma {:induction false} ExploredMatches(s: Shape, p: string, w: string, sub: string, y: string)
    requires Explores(s, p, w, sub, y)
    ensures Matches(w, sub, y) && p + w in s
    decreases |w|
  {
    if w == "" {
      assert p + w == p;
    } else {
      assert p + w == p + [w[0]] + w[1..];
      if ExploresLiteral(s, p, w, sub, y) {
        ExploredMatches(s, p + [w[0]], w[1..], sub[1..], y[1..]);
      } else if ExploresStar(s, p, w, sub, y) {
        var k :| 0 <= k < |sub| && k <= |y| && y[..k] == sub[..k] && Explores(s, p + [w[0]], w[1..], sub[k..], y[k..]);
        ExploredMatches(s, p + [w[0]], w[1..], sub[k..], y[k..]);
      } else {
        ExploredMatches(s, p + [w[0]], w[1..], sub, y);
      }
    }
  }

  // ---------- When the search explores everything ----------

  /** The path ends in a separator mark, stars after it aside. */
  predicate AfterMark(p: string) {
    p != "" && (p[|p| - 1] == '^' || (p[|p| - 1] == '*' && AfterMark(p[..|p| - 1])))
  }

  /** The child with number `h` cannot hide a star after it: the search comes to the star by way of a separator mark,
      and so it can always come there in front of a separator, which the child does not stand for. */
  predicate Harmless(s: Shape, p: string, h: nat)
    requires h < |KidsOf(s, p)|
  {
    AfterMark(p) && !IsSeparator(KidsOf(s, p)[h])
  }

  /** An earlier sibling of a star stands for no character of the text, or is harmless. */
  ghost predicate StarsInView(s: Shape, text: string) {
    forall p, h, j :: 0 <= h < j < |KidsOf(s, p)| && KidsOf(s, p)[j] == '*' ==>
      KidsOf(s, p)[h] !in text || Harmless(s, p, h)
  }

  /** A separator mark comes before its siblings: insertion sees to that. */
  ghost predicate SeparatorsFirst(s: Shape) {
    forall p :: '^' in KidsOf(s, p) ==> KidsOf(s, p)[0] == '^'
  }

  /** The same for the stars of a single path. */
  ghost predicate PathInView(s: Shape, w: string, text: string) {
    forall i, h, j :: 0 <= i < |w| && w[i] == '*' && 0 <= h < j < |KidsOf(s, w[..i])| && KidsOf(s, w[..i])[j] == '*' ==>
      KidsOf(s, w[..i])[h] !in text || Harmless(s, w[..i], h)
  }

  lemma AllPathsInView(s: Shape, w: string, text: string)
    requires StarsInView(s, text)
    ensures PathInView(s, w, text)
  {
    hide Harmless;
  }

  lemma NotShadowed(s: Shape, p: string, w: string, text: string)
    requires WellFormed(s) && SeparatorsFirst(s) && w != "" && text != "" && w[0] in KidsOf(s, p)
    requires PathInView(s, p + w, text)
    requires w[0] == '*' || w[0] == '^' || w[0] == text[0]
    requires w[0] == '*' && AfterMark(p) ==> IsSeparator(text[0])
    ensures !Shadowed(KidsOf(s, p), w[0], text[0])
  {
    if w[0] == '*' {
      assert (p + w)[|p|] == '*' && (p + w)[..|p|] == p;
    }
  }

  lemma SuffixInView(s: Shape, w: string, text: string, k: nat)
    requires PathInView(s, w, text) && k <= |text|
    ensures PathInView(s, w, text[k..])
  {
    hide Harmless, KidsOf;
  }

  /** The prefixes of a node's path are nodes. */
  lemma {:induction false} PathToNode(s: Shape, p: string, w: string)
    requires WellFormed(s) && w != "" && p + w in s
    ensures w[0] in KidsOf(s, p) && p in s && p + [w[0]] in s
    decreases |w|
  {
    var q := p + w;
    assert IsChild(s, q);
    assert q[..|q| - 1] == p + w[..|w| - 1] && q[|q| - 1] == w[|w| - 1];
    if |w| > 1 {
      PathToNode(s, p, w[..|w| - 1]);
    } else {
      assert p + w[..0] == p;
    }
  }

  /** A star that stands in front of no separator can take up what comes before it. */
  lemma StarWidens(w: string, sub: string, y: string, k: nat)
    requires w != "" && w[0] == '*' && k < |sub| && k <= |y| && y[..k] == sub[..k] && !IsSeparator(sub[k])
    requires Matches(w, sub[k..], y[k..])
    ensures MatchesStar(w, sub, y)
  {
    hide IsSeparator;
    SeparatorMarks();
    assert MatchesStar(w, sub[k..], y[k..]);
    var n :| 0 <= n < |sub[k..]| && n <= |y[k..]| && y[k..][..n] == sub[k..][..n]
             && Matches(w[1..], sub[k..][n..], y[k..][n..]);
    hide Matches;
    DropTwice(sub, k, n);
    DropTwice(y, k, n);
  }

  lemma DropTwice(s: string, k: nat, n: nat)
    requires k + n <= |s|
    ensures s[k..][n..] == s[k + n..] && s[..k + n] == s[..k] + s[k..][..n]
  {}

  lemma SeparatorMarks()
    ensures IsSeparator('^') && IsSeparator('*')
  {}

  /** The next star of the pattern is not in front of a character that could hide it. */
  predicate InFront(p: string, w: string, sub: string) {
    w != "" && w[0] == '*' && AfterMark(p) ==> sub != "" && IsSeparator(sub[0])
  }

  /** If no star can be hidden, the search goes everywhere where a pattern matches. */
  lemma {:induction false} MatchExplored(s: Shape, p: string, w: string, sub: string, y: string)
    requires WellFormed(s) && PathInView(s, p + w, sub) && SeparatorsFirst(s) && p + w in s && Matches(w, sub, y)
    requires InFront(p, w, sub)
    ensures Explores(s, p, w, sub, y)
    decreases |w|
  {
    if w == "" {
      assert p + w == p;
    } else {
      PathToNode(s, p, w);
      assert p + w == p + [w[0]] + w[1..];
      NotShadowed(s, p, w, sub);
      MatchContinues(p, w, sub, y);
      hide WellFormed, SeparatorsFirst, Shadowed, PathInView, InFront;
      if ContinuesLiteral(p, w, sub, y) {
        SuffixInView(s, p + w, sub, 1);
        MatchExplored(s, p + [w[0]], w[1..], sub[1..], y[1..]);
      } else if ContinuesStar(p, w, sub, y) {
        var k :| 0 <= k < |sub| && k <= |y| && y[..k] == sub[..k] && Matches(w[1..], sub[k..], y[k..])
                 && InFront(p + [w[0]], w[1..], sub[k..]);
        SuffixInView(s, p + w, sub, k);
        MatchExplored(s, p + [w[0]], w[1..], sub[k..], y[k..]);
      } else {
        MatchExplored(s, p + [w[0]], w[1..], sub, y);
      }
    }
  }

  ghost predicate ContinuesLiteral(p: string, w: string, sub: string, y: string)
    requires w != "" && sub != ""
  {
    MatchesLiteral(w, sub, y) && InFront(p + [w[0]], w[1..], sub[1..])
  }

  ghost predicate ContinuesStar(p: string, w: string, sub: string, y: string)
    requires w != "" && sub != ""
  {
    w[0] == '*' && exists k :: 0 <= k < |sub| && k <= |y| && y[..k] == sub[..k] && Matches(w[1..], sub[k..], y[k..])
                               && InFront(p + [w[0]], w[1..], sub[k..])
  }

  ghost predicate ContinuesSeparator(p: string, w: string, sub: string, y: string)
    requires w != "" && sub != ""
  {
    w[0] == '^' && IsSeparator(sub[0]) && Matches(w[1..], sub, y) && InFront(p + [w[0]], w[1..], sub)
  }

  lemma AfterMarkStep(p: string, c: char)
    ensures AfterMark(p + [c]) <==> c == '^' || (c == '*' && AfterMark(p))
  {
    assert (p + [c])[..|p|] == p;
  }

  /** A match of a pattern can be chosen so that no star after a separator mark is looked at in front of a character
      that is no separator. */
  lemma MatchContinues(p: string, w: string, sub: string, y: string)
    requires w != "" && Matches(w, sub, y) && InFront(p, w, sub)
    ensures ContinuesLiteral(p, w, sub, y) || ContinuesStar(p, w, sub, y) || ContinuesSeparator(p, w, sub, y)
  {
    var v := w[1..];
    AfterMarkStep(p, w[0]);
    hide AfterMark, IsSeparator;
    assert sub[0..] == sub && y[0..] == y && y[..0] == sub[..0];
    SeparatorMarks();
    if MatchesLiteral(w, sub, y) {
      if !InFront(p + [w[0]], v, sub[1..]) {
        MatchNotEmpty(v, sub[1..], y[1..]);
        StarWidens(v, sub, y, 1);
      }
    } else if MatchesStar(w, sub, y) {
      var k :| 0 <= k < |sub| && k <= |y| && y[..k] == sub[..k] && Matches(v, sub[k..], y[k..]);
      if !InFront(p + [w[0]], v, sub[k..]) {
        StarWidens(v, sub, y, k);
        assert Matches(v, sub[0..], y[0..]) && InFront(p + [w[0]], v, sub[0..]);
      }
    }
  }

  lemma MatchNotEmpty(w: string, sub: string, y: string)
    requires Matches(w, sub, y) && w != ""
    ensures sub != ""
  {}

  /** The search misses no match of any node's path on any text. */
  ghost predicate MissesNothing(s: Shape) {
    forall w, sub, y :: w in s && Matches(w, sub, y) ==> Explores(s, "", w, sub, y)
  }

  /** Every star comes first among its siblings, harmless ones aside. */
  ghost predicate StarsHarmless(s: Shape) {
    forall p, h, j :: 0 <= h < j < |KidsOf(s, p)| && KidsOf(s, p)[j] == '*' ==> Harmless(s, p, h)
  }

  // ---------- What a hidden star misses ----------

  /** The number of characters that are neither stars nor separator marks. */
  function PlainCount(w: string): nat {
    if w == "" then 0 else (if w[0] == '*' || w[0] == '^' then 0 else 1) + PlainCount(w[1..])
  }

  /** A text for a pattern: all but its stars, as far as its last plain character. */
  function PlainText(w: string): (y: string)
    ensures PlainCount(y) == PlainCount(w) && (PlainCount(w) == 0 ==> y == "")
  {
    if PlainCount(w) == 0 then "" else if w[0] == '*' then PlainText(w[1..]) else [w[0]] + PlainText(w[1..])
  }

  /** The pattern's last marks match the empty text in front of `c`. */
  predicate MarksMatch(w: string, c: char) {
    AfterMark(w) ==> IsSeparator(c)
  }

  /** Marks at the end stay at the end. */
  lemma {:induction false} AfterMarkSuffix(w: string)
    requires w != ""
    ensures AfterMark(w[1..]) ==> AfterMark(w)
    ensures PlainCount(w) == 0 && w[0] == '^' ==> AfterMark(w)
  {
    if |w| > 1 {
      var n := |w| - 1;
      assert w[1..][..n - 1] == w[..n][1..] && w[1..][n - 1] == w[n];
      AfterMarkSuffix(w[..n]);
      PlainCountSnoc(w[..n], w[n]);
      assert w[..n] + [w[n]] == w;
    }
  }

  lemma {:induction false} PlainCountSnoc(w: string, c: char)
    ensures PlainCount(w + [c]) == PlainCount(w) + if c == '*' || c == '^' then 0 else 1
  {
    if w != "" {
      assert (w + [c])[1..] == w[1..] + [c];
      PlainCountSnoc(w[1..], c);
    }
  }

  /** A star pattern matches its own text in front of one more character. */
  lemma {:induction false} PlainTextMatches(w: string, c: char)
    requires MarksMatch(w, c)
    ensures Matches(w + "*", PlainText(w) + [c], PlainText(w))
    decreases |w|
  {
    var sub, y, v := PlainText(w) + [c], PlainText(w), w + "*";
    assert sub[0..] == sub && y[0..] == y && y[..0] == sub[..0];
    if w == "" {
      assert v[1..] == "" && Matches(v[1..], sub[0..], y[0..]);
      assert MatchesStar(v, sub, y);
    } else {
      AfterMarkSuffix(w);
      PlainTextMatches(w[1..], c);
      hide AfterMark, IsSeparator;
      assert v[1..] == w[1..] + "*";
      if w[0] == '*' {
        assert Matches(v[1..], sub[0..], y[0..]);
        assert MatchesStar(v, sub, y);
      } else if PlainCount(w) > 0 {
        assert sub[1..] == PlainText(w[1..]) + [c] && y[1..] == PlainText(w[1..]);
        assert MatchesLiteral(v, sub, y);
      }
    }
  }

  /** The text ends in a plain character, if at all. */
  predicate EndsPlain(y: string) {
    y != "" ==> y[|y| - 1] != '*' && y[|y| - 1] != '^'
  }

  lemma {:induction false} PlainTextEnds(w: string)
    ensures EndsPlain(PlainText(w))
  {
    if PlainCount(w) > 0 {
      PlainTextEnds(w[1..]);
    }
  }

  lemma {:induction false} PlainCountDrop(y: string, k: nat)
    requires k <= |y|
    ensures PlainCount(y[k..]) <= PlainCount(y)
    decreases k
  {
    if k == 0 {
      assert y[0..] == y;
    } else {
      PlainCountDrop(y[1..], k - 1);
      assert y[1..][k - 1..] == y[k..];
    }
  }

  lemma RestEnds(y: string, c: char, k: nat)
    requires EndsPlain(y) && k <= |y|
    ensures EndsPlain(y[k..]) && PlainCount(y[k..]) <= PlainCount(y) && (y + [c])[k..] == y[k..] + [c]
  {
    hide *;
    PlainCountDrop(y, k);
    DropSnoc(y, c, k);
    DropEnds(y, k);
  }

  lemma DropEnds(y: string, k: nat)
    requires EndsPlain(y) && k <= |y|
    ensures EndsPlain(y[k..])
  {}

  lemma DropSnoc(y: string, c: char, k: nat)
    requires k <= |y|
    ensures (y + [c])[k..] == y[k..] + [c]
  {}

  lemma EndIsPlain(y: string)
    requires EndsPlain(y)
    ensures y == "" || PlainCount(y) > 0
  {
    if y != "" {
      var n := |y| - 1;
      PlainCountSnoc(y[..n], y[n]);
      assert y[..n] + [y[n]] == y;
    }
  }

  /** A text that has no more plain characters than the pattern brings the search to the last star only in front of
      `c`. */
  lemma {:induction false} StarSeen(s: Shape, p: string, w: string, y: string, c: char)
    requires EndsPlain(y) && PlainCount(y) <= PlainCount(w) && Explores(s, p, w + "*", y + [c], y)
    ensures !Shadowed(KidsOf(s, p + w), '*', c)
    decreases |w|
  {
    var sub, v := y + [c], w + "*";
    if w == "" {
      EndIsPlain(y);
      assert p + w == p && v == "*" && sub == [c];
    } else {
      assert v[1..] == w[1..] + "*" && v[0] == w[0] && p + w == p + [w[0]] + w[1..];
      hide Shadowed, EndsPlain;
      if ExploresLiteral(s, p, v, sub, y) {
        RestEnds(y, c, 1);
        StarSeen(s, p + [w[0]], w[1..], y[1..], c);
      } else if ExploresStar(s, p, v, sub, y) {
        var k :| 0 <= k < |sub| && k <= |y| && y[..k] == sub[..k] && Explores(s, p + [w[0]], v[1..], sub[k..], y[k..]);
        RestEnds(y, c, k);
        StarSeen(s, p + [w[0]], w[1..], y[k..], c);
      } else {
        StarSeen(s, p + [w[0]], w[1..], y, c);
      }
    }
  }

  /** The search misses nothing if and only if every star comes first among its siblings, harmless ones aside. */
  lemma MissesNothingExactly(s: Shape)
    requires WellFormed(s) && SeparatorsFirst(s)
    ensures MissesNothing(s) <==> StarsHarmless(s)
  {
    if StarsHarmless(s) {
      forall w, sub, y | w in s && Matches(w, sub, y)
        ensures Explores(s, "", w, sub, y)
      {
        assert "" + w == w;
        hide WellFormed, SeparatorsFirst, Harmless, Matches, Explores;
        AllPathsInView(s, w, sub);
        MatchExplored(s, "", w, sub, y);
      }
    }
    if p, h, j :| 0 <= h < j < |KidsOf(s, p)| && KidsOf(s, p)[j] == '*' && !Harmless(s, p, h) {
      StarMissed(s, p, h, j);
      assert p + "*" in s;
      hide Explores, Matches;
      assert !MissesNothing(s);
    }
  }

  /** A star with an earlier sibling that is not harmless is missed on the text of its path in front of that sibling's
      character. */
  lemma StarMissed(s: Shape, p: string, h: nat, j: nat)
    requires h < j < |KidsOf(s, p)| && KidsOf(s, p)[j] == '*' && !Harmless(s, p, h)
    ensures var c, y := KidsOf(s, p)[h], PlainText(p);
      Matches(p + "*", y + [c], y) && !Explores(s, "", p + "*", y + [c], y)
  {
    var c, y := KidsOf(s, p)[h], PlainText(p);
    PlainTextMatches(p, c);
    PlainTextEnds(p);
    hide Matches, Explores, IsSeparator, AfterMark;
    assert "" + p == p;
    assert Shadowed(KidsOf(s, p), '*', c);
    if Explores(s, "", p + "*", y + [c], y) {
      StarSeen(s, "", p, y, c);
      assert false;
    }
  }
}
