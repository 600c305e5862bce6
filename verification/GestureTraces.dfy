/** Traces that the recogniser is sure to recognise. */
module GestureTraces {
  import opened Common
  import opened GestureMoves
  import opened GestureLaws
  import opened MouseGestures

  datatype Direction = Up | Down | Left | Right

  /** A displacement that goes mainly in a direction; ties count as vertical. */
  predicate Dominated(d: Direction, dx: int, dy: int) {
    match d
    case Up => dy < 0 && Abs(dx) <= Abs(dy)
    case Down => dy > 0 && Abs(dx) <= Abs(dy)
    case Left => dx < 0 && Abs(dx) > Abs(dy)
    case Right => dx > 0 && Abs(dx) > Abs(dy)
  }

  predicate Toward(p: Position, d: Direction) {
    match d
    case Up => p.x == 0 && p.y < 0
    case Down => p.x == 0 && p.y > 0
    case Left => p.x < 0 && p.y == 0
    case Right => p.x > 0 && p.y == 0
  }

  predicate AcceptsDirection(a: Action, d: Direction) {
    match d
    case Up => a == MoveUp || a == MoveVertically
    case Down => a == MoveDown || a == MoveVertically
    case Left => a == MoveLeft || a == MoveHorizontally
    case Right => a == MoveRight || a == MoveHorizontally
  }

  predicate AcceptsAll(gesture: seq<Action>, dirs: seq<Direction>) {
    |gesture| == |dirs| && forall i :: 0 <= i < |dirs| ==> AcceptsDirection(gesture[i], dirs[i])
  }

  ghost predicate NeighboursDiffer(dirs: seq<Direction>) {
    forall i :: 0 <= i < |dirs| - 1 ==> dirs[i] != dirs[i + 1]
  }

  /** Which of the directions each move belongs to: each has one or more moves, in order. */
  ghost predicate Labels(labels: seq<nat>, last: nat) {
    && labels != [] && labels[0] == 0 && labels[|labels| - 1] == last
    && forall k :: 0 <= k < |labels| - 1 ==> labels[k] <= labels[k + 1] <= labels[k] + 1
  }

  /** The positions trace the directions one after the other, each with one or more moves that it dominates. */
  ghost predicate Traces(positions: seq<Position>, dirs: seq<Direction>, labels: seq<nat>) {
    && dirs != [] && |positions| == |labels| + 1 && Labels(labels, |dirs| - 1)
    && (forall k :: 0 <= k < |labels| ==> labels[k] < |dirs|)
    && (forall k :: 0 <= k < |labels| ==>
         Dominated(dirs[labels[k]], positions[k + 1].x - positions[k].x, positions[k + 1].y - positions[k].y))
  }

  /** Every displacement but the zero one goes mainly in exactly one direction. */
  lemma OneDirection(dx: int, dy: int)
    requires dx != 0 || dy != 0
    ensures exists d: Direction :: Dominated(d, dx, dy)
    ensures forall d, e: Direction :: Dominated(d, dx, dy) && Dominated(e, dx, dy) ==> d == e
  {
    if dy < 0 && Abs(dx) <= Abs(dy) {
      assert Dominated(Up, dx, dy);
    } else if dy > 0 && Abs(dx) <= Abs(dy) {
      assert Dominated(Down, dx, dy);
    } else if dx < 0 {
      assert Dominated(Left, dx, dy);
    } else {
      assert Dominated(Right, dx, dy);
    }
  }

  lemma LimitToward(d: Direction, dx: int, dy: int)
    requires Dominated(d, dx, dy)
    ensures Toward(Limit(dx, dy), d)
  {}

  lemma TowardJoins(p: Position, q: Position, d: Direction, e: Direction)
    requires Toward(p, d) && Toward(q, e)
    ensures Joins(p, q) <==> d == e
    ensures d == e ==> Toward(Join(p, q), d)
    ensures p != ZERO && MoveLength(p) > 0
  {}

  lemma {:induction false} TraceJoined(moves: seq<Position>, dirs: seq<Direction>, labels: seq<nat>, last: nat)
    requires |moves| == |labels| && Labels(labels, last) && last < |dirs|
    requires NeighboursDiffer(dirs)
    requires forall k :: 0 <= k < |labels| ==> labels[k] < |dirs| && Toward(moves[k], dirs[labels[k]])
    ensures var j := JoinAll(moves);
      |j.done| == last && Toward(j.last, dirs[last]) && forall i :: 0 <= i < last ==> Toward(j.done[i], dirs[i])
  {
    hide Toward, Joins, Join;
    var n := |moves| - 1;
    if n > 0 {
      TraceJoined(moves[..n], dirs, labels[..n], labels[n - 1]);
      TowardJoins(JoinAll(moves[..n]).last, moves[n], dirs[labels[n - 1]], dirs[last]);
    }
  }

  lemma SimplifyIs(ps: seq<Position>)
    ensures ps != [] && JoinAll(ps).last != ZERO ==> Simplify(ps) == JoinAll(ps).done + [JoinAll(ps).last]
  {
    hide JoinAll;
  }

  lemma TraceToward(positions: seq<Position>, dirs: seq<Direction>, labels: seq<nat>)
    requires Traces(positions, dirs, labels)
    ensures var limited := LimitDirections(positions);
      |limited| == |labels| > 0 && dirs != [] && Labels(labels, |dirs| - 1)
      && forall k :: 0 <= k < |labels| ==> labels[k] < |dirs| && Toward(limited[k], dirs[labels[k]])
  {
    forall k | 0 <= k < |labels|
      ensures Toward(MoveFrom(positions, k), dirs[labels[k]])
    {
      LimitToward(dirs[labels[k]], positions[k + 1].x - positions[k].x, positions[k + 1].y - positions[k].y);
    }
    hide Toward, Dominated, MoveFrom, Labels;
  }

  /** The first round of a trace has one move for each of its directions. */
  lemma TraceSimplified(positions: seq<Position>, dirs: seq<Direction>, labels: seq<nat>)
    requires Traces(positions, dirs, labels) && NeighboursDiffer(dirs)
    ensures var moves := Round(positions, 0);
      |moves| == |dirs| && Length(moves) > 0 && forall i :: 0 <= i < |dirs| ==> Toward(moves[i], dirs[i])
  {
    hide *;
    var limited, last := LimitDirections(positions), |dirs| - 1;
    TraceToward(positions, dirs, labels);
    TraceJoined(limited, dirs, labels, last);
    var j := JoinAll(limited);
    TowardJoins(j.last, j.last, dirs[last], dirs[last]);
    RoundIs(positions, 0);
    SimplifyIs(limited);
    LengthSnoc(j.done, j.last);
  }

  /** An action accepts an axis-parallel move if and only if the move goes in one of the action's directions. */
  lemma AcceptedExactly(a: Action, p: Position)
    requires Aligned(p)
    ensures Accepts(a, p) <==> exists d: Direction :: Toward(p, d) && AcceptsDirection(a, d)
    ensures forall d, e: Direction :: Toward(p, d) && Toward(p, e) ==> d == e
  {
    if p.y < 0 {
      assert Toward(p, Up);
    } else if p.y > 0 {
      assert Toward(p, Down);
    } else if p.x < 0 {
      assert Toward(p, Left);
    } else if p.x > 0 {
      assert Toward(p, Right);
    }
  }

  lemma TowardAccepted(a: Action, p: Position, d: Direction)
    requires Toward(p, d)
    ensures Accepts(a, p) <==> AcceptsDirection(a, d)
  {}

  /** Moves in the given directions are matched by exactly the gestures that accept the directions. */
  lemma MatchedExactly(gesture: seq<Action>, moves: seq<Position>, dirs: seq<Direction>)
    requires |moves| == |dirs| && forall i :: 0 <= i < |dirs| ==> Toward(moves[i], dirs[i])
    ensures Matches(gesture, moves) <==> AcceptsAll(gesture, dirs)
  {
    if |gesture| == |dirs| {
      forall i | 0 <= i < |dirs|
        ensures Accepts(gesture[i], moves[i]) <==> AcceptsDirection(gesture[i], dirs[i])
      {
        TowardAccepted(gesture[i], moves[i], dirs[i]);
      }
    }
  }

  /** A trace of directions, of which no two neighbours are equal, is recognised as the first gesture that accepts the
      directions; if there is none, then at most as a gesture of fewer moves. */
  lemma TraceRecognized(positions: seq<Position>, gestures: seq<seq<Action>>, minimumMatch: real, r: int,
                        dirs: seq<Direction>, labels: seq<nat>)
    requires IsRecognized(positions, gestures, minimumMatch, r) && minimumMatch < 1.0
    requires Traces(positions, dirs, labels) && NeighboursDiffer(dirs)
    ensures -1 <= r < |gestures|
    ensures if exists g :: 0 <= g < |gestures| && AcceptsAll(gestures[g], dirs)
      then r >= 0 && AcceptsAll(gestures[r], dirs) && forall g :: 0 <= g < r ==> !AcceptsAll(gestures[g], dirs)
      else r >= 0 ==> |gestures[r]| < |dirs|
  {
    hide *;
    TraceSimplified(positions, dirs, labels);
    var moves := Round(positions, 0);
    forall g | 0 <= g < |gestures|
      ensures Matches(gestures[g], moves) <==> AcceptsAll(gestures[g], dirs)
    {
      MatchedExactly(gestures[g], moves, dirs);
    }
    FirstAlive(positions, minimumMatch);
    if g :| 0 <= g < |gestures| && AcceptsAll(gestures[g], dirs) {
      FirstRoundDecides(positions, gestures, minimumMatch, r, g);
    } else {
      LaterRound(positions, gestures, minimumMatch, r);
    }
  }

  lemma LaterRound(positions: seq<Position>, gestures: seq<seq<Action>>, minimumMatch: real, r: int)
    requires IsRecognized(positions, gestures, minimumMatch, r)
    requires forall g :: 0 <= g < |gestures| ==> !Matches(gestures[g], Round(positions, 0))
    ensures -1 <= r < |gestures| && (r >= 0 ==> |gestures[r]| < |Round(positions, 0)|)
  {
    hide Round, Alive;
    if r >= 0 {
      var n :| RecognizedIn(positions, gestures, minimumMatch, r, n);
      assert n != 0;
      RoundsShrink(positions, n);
      AliveIs(positions, minimumMatch, n);
    }
  }

  lemma {:induction false} RoundsShrink(positions: seq<Position>, n: nat)
    ensures n > 0 && Round(positions, n) != [] ==> |Round(positions, n)| < |Round(positions, 0)|
    ensures Length(Round(positions, n)) <= Length(Round(positions, 0))
  {
    hide *;
    if n > 0 {
      RoundsShrink(positions, n - 1);
      RoundShrinks(positions, n - 1);
    }
  }

  /** What is left must be more than the required part of the total length: of the whole length, nothing is more. */
  lemma NothingForAll(positions: seq<Position>, gestures: seq<seq<Action>>, minimumMatch: real, r: int)
    requires IsRecognized(positions, gestures, minimumMatch, r) && minimumMatch >= 1.0
    ensures r == -1
  {
    hide *;
    var length := Length(Round(positions, 0));
    MinimumLengthIs(positions, minimumMatch, length, length as real * minimumMatch);
    forall n: nat
      ensures !Alive(positions, minimumMatch, n)
    {
      RoundsShrink(positions, n);
      AliveIs(positions, minimumMatch, n);
      WholeLength(length, minimumMatch);
    }
    NeverAlive(positions, gestures, minimumMatch, r);
  }

  lemma WholeLength(length: nat, minimumMatch: real)
    requires minimumMatch >= 1.0
    ensures length as real <= length as real * minimumMatch
  {
    var x := length as real;
    assert x * (minimumMatch - 1.0) >= 0.0;
  }

  lemma NeverAlive(positions: seq<Position>, gestures: seq<seq<Action>>, minimumMatch: real, r: int)
    requires IsRecognized(positions, gestures, minimumMatch, r)
    requires forall n: nat :: !Alive(positions, minimumMatch, n)
    ensures r == -1
  {
    hide Round, Alive, Matches;
  }

  lemma FirstAlive(positions: seq<Position>, minimumMatch: real)
    requires Length(Round(positions, 0)) > 0 && minimumMatch < 1.0
    ensures Alive(positions, minimumMatch, 0)
  {
    hide *;
    NonemptyLength(Round(positions, 0));
    var length := Length(Round(positions, 0));
    FullLength(length, minimumMatch);
    MinimumLengthIs(positions, minimumMatch, length, length as real * minimumMatch);
    AliveIs(positions, minimumMatch, 0);
  }

  lemma NonemptyLength(moves: seq<Position>)
    ensures Length(moves) > 0 ==> moves != []
  {}

  lemma FullLength(length: nat, minimumMatch: real)
    requires length > 0 && minimumMatch < 1.0
    ensures length as real > length as real * minimumMatch
  {
    var x := length as real;
    assert x * (1.0 - minimumMatch) > 0.0;
  }

  lemma FirstRoundDecides(positions: seq<Position>, gestures: seq<seq<Action>>, minimumMatch: real, r: int, g: nat)
    requires IsRecognized(positions, gestures, minimumMatch, r) && Alive(positions, minimumMatch, 0)
    requires g < |gestures| && Matches(gestures[g], Round(positions, 0))
    ensures 0 <= r <= g && Matches(gestures[r], Round(positions, 0))
    ensures forall i :: 0 <= i < r ==> !Matches(gestures[i], Round(positions, 0))
  {
    hide Round, Alive, Matches;
    var n :| RecognizedIn(positions, gestures, minimumMatch, r, n);
    assert n == 0;
  }

  // ---------- A slip of the mouse ----------

  lemma {:induction false} JoinAround(a: seq<Position>, u: Position, w: Position, b: seq<Position>)
    requires Aligned(u) && Aligned(w) && Joins(u, w) && Reduced(a + [u]) && Reduced([w] + b)
    ensures var j := JoinAll(a + [u, w] + b); j.done + [j.last] == a + [Join(u, w)] + b
  {
    if b == [] {
      JoinAllFixed(a + [u]);
      assert a + [u, w] + b == (a + [u]) + [w] && (a + [u])[..|a|] == a;
      assert ((a + [u]) + [w])[..|a| + 1] == a + [u];
    } else {
      var m := |b| - 1;
      var init, p := b[..m], b[m];
      assert [w] + b == ([w] + init) + [p];
      ReducedPrefix([w] + init, p);
      JoinAround(a, u, w, init);
      assert a + [u, w] + b == (a + [u, w] + init) + [p] && a + [Join(u, w)] + b == (a + [Join(u, w)] + init) + [p];
      assert ((a + [u, w] + init) + [p])[..|a| + 2 + m] == a + [u, w] + init;
      JoinLaws(u, w, p);
      var j := JoinAll(a + [u, w] + init);
      assert j.last == (j.done + [j.last])[|j.done|];
      hide Joins, Join, Reduced;
      assert !Joins(j.last, p);
    }
  }

  lemma ReducedPrefix(s: seq<Position>, p: Position)
    requires Reduced(s + [p])
    ensures Reduced(s) && (s != [] ==> !Joins(s[|s| - 1], p))
  {
    forall i | 0 <= i < |s| - 1
      ensures !Joins(s[i], s[i + 1])
    {
      assert !Joins((s + [p])[i], (s + [p])[i + 1]);
    }
    if s != [] {
      assert !Joins((s + [p])[|s| - 1], (s + [p])[|s|]);
    }
  }

  /** What the removal of a short move between two moves of the same direction leaves. */
  lemma SlipRemoved(moves: seq<Position>, a: seq<Position>, u: Position, v: Position, w: Position, b: seq<Position>)
    requires moves == a + [u, v, w] + b && AllAligned(moves) && Reduced(moves) && NoZero(moves)
    requires Joins(u, w) && Shortest(moves) == |a| + 1
    ensures Simplify(RemoveShortest(moves)) == a + [Join(u, w)] + b
    ensures Length(a + [Join(u, w)] + b) == Length(moves) - MoveLength(v)
  {
    hide *;
    SlipSlices(moves, a, u, v, w, b);
    RemovalLoses(moves);
    ReducedParts(a + [u], [v], [w] + b);
    JoinAround(a, u, w, b);
    RemovalAligned(moves);
    SimplifyLaws(a + [u, w] + b);
    var j := JoinAll(a + [u, w] + b);
    LastNotZero(moves, a, u, v, w, b, j);
    SimplifyIs(a + [u, w] + b);
  }

  lemma SlipSlices(moves: seq<Position>, a: seq<Position>, u: Position, v: Position, w: Position, b: seq<Position>)
    requires moves == a + [u, v, w] + b && AllAligned(moves) && Shortest(moves) == |a| + 1
    ensures moves == (a + [u]) + [v] + ([w] + b) && moves[|a| + 1] == v
    ensures RemoveShortest(moves) == a + [u, w] + b
    ensures Aligned(u) && Aligned(w)
  {
    hide Shortest, Aligned;
    var k := |a| + 1;
    assert moves[k - 1] == u && moves[k] == v && moves[k + 1] == w;
    assert moves[..k] == a + [u] && moves[k + 1..] == [w] + b;
  }

  lemma ReducedParts(x: seq<Position>, y: seq<Position>, z: seq<Position>)
    requires Reduced(x + y + z)
    ensures Reduced(x) && Reduced(z)
  {
    var s := x + y + z;
    assert forall i :: 0 <= i < |x| ==> x[i] == s[i];
    assert forall i :: 0 <= i < |z| ==> z[i] == s[|x| + |y| + i];
    hide Joins;
    forall i | 0 <= i < |x| - 1
      ensures !Joins(x[i], x[i + 1])
    {
      assert !Joins(s[i], s[i + 1]);
    }
    forall i | 0 <= i < |z| - 1
      ensures !Joins(z[i], z[i + 1])
    {
      assert !Joins(s[|x| + |y| + i], s[|x| + |y| + i + 1]);
    }
  }

  lemma LastNotZero(moves: seq<Position>, a: seq<Position>, u: Position, v: Position, w: Position, b: seq<Position>,
          j: Joined)
    requires moves == a + [u, v, w] + b && NoZero(moves) && Aligned(u) && Aligned(w) && Joins(u, w)
    requires j.done + [j.last] == a + [Join(u, w)] + b
    ensures j.last != ZERO
  {
    JoinLaws(u, w, u);
    assert j.last == (j.done + [j.last])[|j.done|];
    if b != [] {
      assert j.last == b[|b| - 1] == moves[|moves| - 1];
    }
  }

  /** A slip is forgiven: a short move between two moves of the same direction is removed and the two are joined, if the
      rest keeps more than the required part of the total length. */
  lemma SlipForgiven(positions: seq<Position>, gestures: seq<seq<Action>>, minimumMatch: real, r: int, g: nat,
                     a: seq<Position>, u: Position, v: Position, w: Position, b: seq<Position>)
    requires IsRecognized(positions, gestures, minimumMatch, r)
    requires forall i :: 0 <= i < |positions| - 1 ==> positions[i] != positions[i + 1]
    requires Round(positions, 0) == a + [u, v, w] + b && Joins(u, w) && Shortest(Round(positions, 0)) == |a| + 1
    requires (Length(Round(positions, 0)) - MoveLength(v)) as real > MinimumLength(positions, minimumMatch)
    requires g < |gestures| && Matches(gestures[g], a + [Join(u, w)] + b)
    ensures r >= 0 && (r <= g || Matches(gestures[r], Round(positions, 0)))
  {
    hide *;
    RoundIs(positions, 0);
    RoundLaws(positions, 0);
    DirectionsAligned(positions);
    SimplifyLaws(LimitDirections(positions));
    SlipRemoved(Round(positions, 0), a, u, v, w, b);
    assert a + [Join(u, w)] + b != [];
    AliveIs(positions, minimumMatch, 1);
    SecondRoundDecides(positions, gestures, minimumMatch, r, g);
  }

  lemma SecondRoundDecides(positions: seq<Position>, gestures: seq<seq<Action>>, minimumMatch: real, r: int, g: nat)
    requires IsRecognized(positions, gestures, minimumMatch, r) && Alive(positions, minimumMatch, 1)
    requires g < |gestures| && Matches(gestures[g], Round(positions, 1))
    ensures r >= 0 && (r <= g || Matches(gestures[r], Round(positions, 0)))
  {
    hide Round, Alive, Matches;
    var n :| RecognizedIn(positions, gestures, minimumMatch, r, n);
    assert n <= 1;
  }

  /** The answer is determined by the recording and the gestures. */
  lemma RecognizedUnique(positions: seq<Position>, gestures: seq<seq<Action>>, minimumMatch: real, r: int, q: int)
    requires IsRecognized(positions, gestures, minimumMatch, r) && IsRecognized(positions, gestures, minimumMatch, q)
    ensures r == q
  {
    hide Round, Alive, Matches;
    if r >= 0 && q >= 0 {
      var n :| RecognizedIn(positions, gestures, minimumMatch, r, n);
      var m :| RecognizedIn(positions, gestures, minimumMatch, q, m);
      assert n == m;
    }
  }
}
