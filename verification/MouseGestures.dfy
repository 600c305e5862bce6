/** The gesture recogniser. */
module MouseGestures {
  import opened Common
  import opened GestureMoves
  import opened GestureLaws

  datatype Action = Unknown | MoveUp | MoveDown | MoveLeft | MoveRight | MoveHorizontally | MoveVertically

  predicate Accepts(a: Action, p: Position) {
    match a
    case Unknown => false
    case MoveUp => p.y < 0
    case MoveDown => p.y > 0
    case MoveLeft => p.x < 0
    case MoveRight => p.x > 0
    case MoveHorizontally => p.x != 0
    case MoveVertically => p.y != 0
  }

  /** A gesture matches moves if it has an action for each of them that accepts it. */
  predicate Matches(gesture: seq<Action>, moves: seq<Position>) {
    |gesture| == |moves| && forall i :: 0 <= i < |moves| ==> Accepts(gesture[i], moves[i])
  }

  /** The first of the gestures that matches, or -1. */
  ghost predicate IsFirstMatch(gestures: seq<seq<Action>>, moves: seq<Position>, r: int) {
    && -1 <= r < |gestures|
    && (r >= 0 ==> Matches(gestures[r], moves))
    && (forall i :: 0 <= i < (if r >= 0 then r else |gestures|) ==> !Matches(gestures[i], moves))
  }

  /** The moves after the shortest move has been removed `n` times, each time joining what can be joined. */
  function Round(positions: seq<Position>, n: nat): seq<Position> {
    if n == 0 then Simplify(LimitDirections(positions)) else Simplify(RemoveShortest(Round(positions, n - 1)))
  }

  /** The part of the total length that a round must keep more of. */
  function MinimumLength(positions: seq<Position>, minimumMatch: real): real {
    Length(Round(positions, 0)) as real * minimumMatch
  }

  /** Enough of the moves is left in a round to look at it. */
  predicate Alive(positions: seq<Position>, minimumMatch: real, n: nat) {
    Round(positions, n) != [] && Length(Round(positions, n)) as real > MinimumLength(positions, minimumMatch)
  }

  /** The answer is the first gesture that matches in the first round in which one matches, among the rounds that keep
      more than the required part of the total length; -1 if there is no such round. */
  ghost predicate IsRecognized(positions: seq<Position>, gestures: seq<seq<Action>>, minimumMatch: real, r: int) {
    if r == -1 then
      forall n: nat, i :: Alive(positions, minimumMatch, n) && 0 <= i < |gestures| ==>
        !Matches(gestures[i], Round(positions, n))
    else exists n: nat :: RecognizedIn(positions, gestures, minimumMatch, r, n)
  }

  ghost predicate RecognizedIn(positions: seq<Position>, gestures: seq<seq<Action>>, minimumMatch: real, r: int,
          n: nat) {
    && r >= 0 && Alive(positions, minimumMatch, n) && IsFirstMatch(gestures, Round(positions, n), r)
    && NoMatchBefore(positions, gestures, n)
  }

  ghost predicate NoMatchBefore(positions: seq<Position>, gestures: seq<seq<Action>>, n: nat) {
    forall m: nat, i :: m < n && 0 <= i < |gestures| ==> !Matches(gestures[i], Round(positions, m))
  }

  // ---------- Rounds ----------

  lemma RoundIs(positions: seq<Position>, n: nat)
    ensures Round(positions, 0) == Simplify(LimitDirections(positions))
    ensures Round(positions, n + 1) == Simplify(RemoveShortest(Round(positions, n)))
  {
    hide Simplify, RemoveShortest, LimitDirections;
  }

  lemma RemovalAligned(moves: seq<Position>)
    requires AllAligned(moves)
    ensures AllAligned(RemoveShortest(moves))
  {
    hide Shortest;
  }

  lemma RemovalShrinks(moves: seq<Position>)
    ensures moves == [] ==> Simplify(RemoveShortest(moves)) == []
    ensures Length(RemoveShortest(moves)) <= Length(moves)
  {
    if moves != [] {
      RemovalLoses(moves);
      hide Length, RemoveShortest;
    }
  }

  /** Every round leaves axis-parallel moves that cannot be joined. */
  lemma {:induction false} RoundLaws(positions: seq<Position>, n: nat)
    ensures AllAligned(Round(positions, n)) && Reduced(Round(positions, n))
  {
    hide *;
    RoundIs(positions, if n == 0 then 0 else n - 1);
    if n == 0 {
      DirectionsAligned(positions);
      SimplifyLaws(LimitDirections(positions));
    } else {
      RoundLaws(positions, n - 1);
      RemovalAligned(Round(positions, n - 1));
      SimplifyLaws(RemoveShortest(Round(positions, n - 1)));
    }
  }

  /** Every round has fewer moves than the one before it, and no more of the total length. */
  lemma RoundShrinks(positions: seq<Position>, n: nat)
    ensures Round(positions, n) != [] ==> |Round(positions, n + 1)| < |Round(positions, n)|
    ensures Round(positions, n) == [] ==> Round(positions, n + 1) == []
    ensures Length(Round(positions, n + 1)) <= Length(Round(positions, n))
  {
    hide *;
    RoundIs(positions, n);
    RoundLaws(positions, n);
    RemovalAligned(Round(positions, n));
    RemovalShrinks(Round(positions, n));
    SimplifyLaws(RemoveShortest(Round(positions, n)));
  }

  lemma MinimumLengthIs(positions: seq<Position>, minimumMatch: real, length: int, product: real)
    requires length == Length(Round(positions, 0)) && product == length as real * minimumMatch
    ensures MinimumLength(positions, minimumMatch) == product
  {
    hide Round, Length;
  }

  lemma AliveIs(positions: seq<Position>, minimumMatch: real, n: nat)
    ensures Alive(positions, minimumMatch, n) <==>
      Round(positions, n) != []
      && Length(Round(positions, n)) as real > MinimumLength(positions, minimumMatch)
  {
    hide Round, Length, MinimumLength;
  }

  /** Rounds that come after one with too little left have too little left as well. */
  lemma {:induction false} StaysDead(positions: seq<Position>, minimumMatch: real, n: nat, m: nat)
    requires n <= m && !Alive(positions, minimumMatch, n)
    ensures !Alive(positions, minimumMatch, m)
  {
    hide *;
    if n < m {
      StaysDead(positions, minimumMatch, n, m - 1);
      RoundShrinks(positions, m - 1);
      AliveIs(positions, minimumMatch, m - 1);
      AliveIs(positions, minimumMatch, m);
    }
  }

  // ---------- The recogniser ----------

  class Recognizer {
    var positions: seq<Position>
    var gestures: seq<seq<Action>>
    var minimumMovement2: int
    var minimumMatch: real

    constructor (minimumMovement: int, minimumMatch: real)
      ensures positions == [] && gestures == [] && minimumMovement2 == minimumMovement * minimumMovement
      ensures this.minimumMatch == minimumMatch
    {
      positions, gestures, minimumMovement2 := [], [], minimumMovement * minimumMovement;
      this.minimumMatch := minimumMatch;
    }

    method StartGesture(x: int, y: int)
      modifies this`positions
      ensures positions == old(positions) + [Position(x, y)]
      ensures old(positions) == [] ==> Spaced(positions, minimumMovement2)
    {
      positions := positions + [Position(x, y)];
    }

    /** Records a position that is far enough from the last one. */
    method AddPosition(x: int, y: int)
      modifies this`positions
      ensures positions == old(positions) + [Position(x, y)] || (old(positions) != [] && positions == old(positions))
      ensures old(positions) != [] ==>
        (positions != old(positions) <==> Apart(old(positions)[|old(positions)| - 1], Position(x, y), minimumMovement2))
      ensures old(Spaced(positions, minimumMovement2)) ==> Spaced(positions, minimumMovement2)
    {
      if positions == [] {
        positions := [Position(x, y)];
        return;
      }
      var last := positions[|positions| - 1];
      var dx, dy := x - last.x, y - last.y;
      if dx * dx + dy * dy >= minimumMovement2 {
        positions := positions + [Position(x, y)];
      }
    }

    /** Adds a gesture and returns its number. */
    method RegisterGesture(actions: seq<Action>) returns (r: int)
      modifies this`gestures
      ensures r == |old(gestures)| && gestures == old(gestures) + [actions]
    {
      gestures := gestures + [actions];
      r := |gestures| - 1;
    }

    /** Recognises what has been recorded and forgets it. */
    method EndGesture() returns (gesture: int)
      modifies this`positions
      ensures positions == []
      ensures if |old(positions)| > 1 then IsRecognized(old(positions), gestures, minimumMatch, gesture)
        else gesture == -1
    {
      gesture := -1;
      if |positions| > 1 {
        gesture := RecognizeGesture();
      }
      positions := [];
    }

    /** Compares the moves with the gestures, and after each failure removes the shortest move. */
    method RecognizeGesture() returns (gesture: int)
      ensures IsRecognized(positions, gestures, minimumMatch, gesture)
    {
      hide *;
      RoundIs(positions, 0);
      var limited := ComputeDirections(positions);
      var directions := ComputeSimplified(limited);
      var length := CalculateLength(directions);
      var minimumLength := length as real * minimumMatch;
      MinimumLengthIs(positions, minimumMatch, length, minimumLength);
      ghost var n: nat := 0;
      NothingBefore(positions, gestures);
      while directions != [] && length as real > minimumLength
        invariant directions == Round(positions, n) && length == Length(directions)
        invariant minimumLength == MinimumLength(positions, minimumMatch)
        invariant NoMatchBefore(positions, gestures, n)
        decreases |directions|
      {
        AliveIs(positions, minimumMatch, n);
        gesture := FindGesture(directions);
        if gesture >= 0 {
          RecognizedIntro(positions, gestures, minimumMatch, gesture, n);
          return;
        }
        NoMatchYet(positions, gestures, n);
        RoundIs(positions, n);
        RoundShrinks(positions, n);
        var fewer := ComputeWithoutShortest(directions);
        directions := ComputeSimplified(fewer);
        length := CalculateLength(directions);
        n := n + 1;
      }
      AliveIs(positions, minimumMatch, n);
      gesture := -1;
      NotRecognized(positions, gestures, minimumMatch, n);
    }

    /** Finds the first gesture that matches. */
    method FindGesture(directions: seq<Position>) returns (r: int)
      ensures IsFirstMatch(gestures, directions, r)
    {
      for i := 0 to |gestures|
        invariant forall k :: 0 <= k < i ==> !Matches(gestures[k], directions)
      {
        if |gestures[i]| == |directions| {
          var match_ := true;
          var k := 0;
          while k < |gestures[i]| && match_
            invariant k <= |gestures[i]|
            invariant match_ ==> forall n :: 0 <= n < k ==> Accepts(gestures[i][n], directions[n])
            invariant !match_ ==> k > 0 && !Accepts(gestures[i][k - 1], directions[k - 1])
          {
            var p := directions[k];
            match gestures[i][k] {
              case MoveUp =>
                if p.y >= 0 { match_ := false; }
              case MoveDown =>
                if p.y <= 0 { match_ := false; }
              case MoveLeft =>
                if p.x >= 0 { match_ := false; }
              case MoveRight =>
                if p.x <= 0 { match_ := false; }
              case MoveHorizontally =>
                if p.x == 0 { match_ := false; }
              case MoveVertically =>
                if p.y == 0 { match_ := false; }
              case Unknown =>
                match_ := false;
            }
            k := k + 1;
          }
          if match_ {
            return i;
          }
        }
      }
      r := -1;
    }
  }

  predicate Apart(p: Position, q: Position, minimumMovement2: int) {
    (q.x - p.x) * (q.x - p.x) + (q.y - p.y) * (q.y - p.y) >= minimumMovement2
  }

  /** Along an axis the minimum movement itself is enough, and nothing less is. */
  lemma ApartOnAxis(p: Position, k: int, minimumMovement: nat)
    ensures Apart(p, Position(p.x + k, p.y), minimumMovement * minimumMovement) <==> Abs(k) >= minimumMovement
    ensures Apart(p, Position(p.x, p.y + k), minimumMovement * minimumMovement) <==> Abs(k) >= minimumMovement
  {
    var a := Abs(k);
    assert k * k == a * a;
    hide Abs;
    if a < minimumMovement {
      SquareMonotone(a, minimumMovement);
    } else if minimumMovement < a {
      SquareMonotone(minimumMovement, a);
    }
  }

  /** A displacement of 3k by 4k counts as one of 5k. */
  lemma ApartAcross(p: Position, k: nat, minimumMovement: nat)
    ensures Apart(p, Position(p.x + 3 * k, p.y + 4 * k), minimumMovement * minimumMovement)
      <==> 5 * k >= minimumMovement
  {
    assert (3 * k) * (3 * k) + (4 * k) * (4 * k) == (5 * k) * (5 * k);
    if 5 * k < minimumMovement {
      SquareMonotone(5 * k, minimumMovement);
    } else if minimumMovement < 5 * k {
      SquareMonotone(minimumMovement, 5 * k);
    }
  }

  /** Every recorded position is far enough from the one before it. */
  ghost predicate Spaced(positions: seq<Position>, minimumMovement2: int) {
    forall i :: 0 <= i < |positions| - 1 ==> Apart(positions[i], positions[i + 1], minimumMovement2)
  }

  /** With a minimum movement, no move of a recording is zero. */
  lemma SpacedMoves(positions: seq<Position>, minimumMovement2: int)
    requires Spaced(positions, minimumMovement2) && minimumMovement2 > 0
    ensures forall i :: 0 <= i < |positions| - 1 ==> positions[i] != positions[i + 1]
    ensures NoZero(LimitDirections(positions))
  {
    forall i | 0 <= i < |positions| - 1
      ensures positions[i] != positions[i + 1]
    {
      assert Apart(positions[i], positions[i + 1], minimumMovement2);
    }
    hide *;
    DirectionsAligned(positions);
  }

  lemma NothingBefore(positions: seq<Position>, gestures: seq<seq<Action>>)
    ensures NoMatchBefore(positions, gestures, 0)
  {}

  lemma NoMatchYet(positions: seq<Position>, gestures: seq<seq<Action>>, n: nat)
    requires NoMatchBefore(positions, gestures, n) && IsFirstMatch(gestures, Round(positions, n), -1)
    ensures NoMatchBefore(positions, gestures, n + 1)
  {
    hide Round, Matches;
  }

  lemma RecognizedIntro(positions: seq<Position>, gestures: seq<seq<Action>>, minimumMatch: real, r: int, n: nat)
    requires r >= 0 && Alive(positions, minimumMatch, n) && IsFirstMatch(gestures, Round(positions, n), r)
    requires NoMatchBefore(positions, gestures, n)
    ensures IsRecognized(positions, gestures, minimumMatch, r)
  {
    hide Round, Alive, IsFirstMatch, NoMatchBefore;
    assert RecognizedIn(positions, gestures, minimumMatch, r, n);
  }

  lemma NotRecognized(positions: seq<Position>, gestures: seq<seq<Action>>, minimumMatch: real, n: nat)
    requires NoMatchBefore(positions, gestures, n) && !Alive(positions, minimumMatch, n)
    ensures IsRecognized(positions, gestures, minimumMatch, -1)
  {
    hide Round, Alive, Matches;
    forall m: nat, i | Alive(positions, minimumMatch, m) && 0 <= i < |gestures|
      ensures !Matches(gestures[i], Round(positions, m))
    {
      if m >= n {
        StaysDead(positions, minimumMatch, n, m);
      }
    }
  }
}
