/** Lists of mouse moves: limiting directions, joining moves, removing the shortest one, total length. */
module GestureMoves {
  import opened Common

  datatype Position = Position(x: int, y: int)

  const ZERO := Position(0, 0)

  /** The axis-parallel move nearest to a displacement; ties count as vertical. */
  function Limit(dx: int, dy: int): Position {
    if Abs(dx) > Abs(dy) then Position(dx, 0) else Position(0, dy)
  }

  lemma LimitIs(dx: int, dy: int)
    ensures Limit(dx, dy) ==
      if (dy > 0 && (dx > dy || -dx > dy)) || (dy <= 0 && (dx > -dy || -dx > -dy))
      then Position(dx, 0) else Position(0, dy)
  {}

  /** The move from one position to the next. */
  function MoveFrom(ps: seq<Position>, i: nat): Position
    requires i + 1 < |ps|
  {
    Limit(ps[i + 1].x - ps[i].x, ps[i + 1].y - ps[i].y)
  }

  /** The moves between successive positions. */
  function LimitDirections(ps: seq<Position>): (moves: seq<Position>)
    ensures |moves| == if ps == [] then 0 else |ps| - 1
    ensures forall i :: 0 <= i < |moves| ==> moves[i] == MoveFrom(ps, i)
  {
    if ps == [] then [] else seq(|ps| - 1, i requires 0 <= i < |ps| - 1 => MoveFrom(ps, i))
  }

  /** Limits the directions of a list of positions to up, down, left or right. */
  method ComputeDirections(positions: seq<Position>) returns (result: seq<Position>)
    ensures result == LimitDirections(positions)
  {
    hide Limit;
    result := [];
    var lastX, lastY, firstTime := 0, 0, true;
    for i := 0 to |positions|
      invariant firstTime <==> i == 0
      invariant i > 0 ==> lastX == positions[i - 1].x && lastY == positions[i - 1].y
      invariant |result| == if i == 0 then 0 else i - 1
      invariant forall k :: 0 <= k < |result| ==> result[k] == MoveFrom(positions, k)
    {
      if firstTime {
        lastX, lastY, firstTime := positions[i].x, positions[i].y, false;
      } else {
        var dx, dy := positions[i].x - lastX, positions[i].y - lastY;
        LimitIs(dx, dy);
        if dy > 0 {
          if dx > dy || -dx > dy {
            dy := 0;
          } else {
            dx := 0;
          }
        } else {
          if dx > -dy || -dx > -dy {
            dy := 0;
          } else {
            dx := 0;
          }
        }
        result := result + [Position(dx, dy)];
        lastX, lastY := positions[i].x, positions[i].y;
      }
    }
  }

  // ---------- Joining ----------

  predicate SameSign(a: int, b: int) {
    (a > 0 && b > 0) || (a < 0 && b < 0)
  }

  /** Two moves go in the same direction. */
  predicate Joins(p: Position, q: Position) {
    SameSign(p.x, q.x) || SameSign(p.y, q.y)
  }

  function Join(p: Position, q: Position): Position {
    Position(if SameSign(p.x, q.x) then p.x + q.x else p.x, if SameSign(p.y, q.y) then p.y + q.y else p.y)
  }

  /** Moves joined so far, and the move that may still grow. */
  datatype Joined = Joined(done: seq<Position>, last: Position)

  function Extend(j: Joined, p: Position): Joined {
    if Joins(j.last, p) then Joined(j.done, Join(j.last, p)) else Joined(j.done + [j.last], p)
  }

  function JoinAll(ps: seq<Position>): Joined
    requires ps != []
  {
    if |ps| == 1 then Joined([], ps[0]) else Extend(JoinAll(ps[..|ps| - 1]), ps[|ps| - 1])
  }

  /** The list with contiguous moves in the same direction joined, without a zero move at the end. */
  function Simplify(ps: seq<Position>): seq<Position> {
    if ps == [] then []
    else
      var j := JoinAll(ps);
      if j.last != ZERO then j.done + [j.last] else j.done
  }

  /** Joins contiguous moves in the same direction. */
  method ComputeSimplified(positions: seq<Position>) returns (result: seq<Position>)
    ensures result == Simplify(positions)
  {
    result := [];
    var lastDx, lastDy, firstTime := 0, 0, true;
    for i := 0 to |positions|
      invariant firstTime <==> i == 0
      invariant i == 0 ==> result == [] && lastDx == 0 && lastDy == 0
      invariant i > 0 ==> Joined(result, Position(lastDx, lastDy)) == JoinAll(positions[..i])
    {
      var p := positions[i];
      assert positions[..i + 1][..i] == positions[..i];
      if firstTime {
        lastDx, lastDy, firstTime := p.x, p.y, false;
      } else {
        var joined := false;
        if (lastDx > 0 && p.x > 0) || (lastDx < 0 && p.x < 0) {
          lastDx := lastDx + p.x;
          joined := true;
        }
        if (lastDy > 0 && p.y > 0) || (lastDy < 0 && p.y < 0) {
          lastDy := lastDy + p.y;
          joined := true;
        }
        if !joined {
          result := result + [Position(lastDx, lastDy)];
          lastDx, lastDy := p.x, p.y;
        }
      }
    }
    assert positions[..|positions|] == positions;
    if lastDx != 0 || lastDy != 0 {
      result := result + [Position(lastDx, lastDy)];
    }
  }

  // ---------- Length ----------

  /** The length of a move; the source looks at the vertical part only if there is no horizontal one. */
  function MoveLength(p: Position): nat {
    if p.x != 0 then Abs(p.x) else Abs(p.y)
  }

  function Length(ps: seq<Position>): nat {
    if ps == [] then 0 else Length(ps[..|ps| - 1]) + MoveLength(ps[|ps| - 1])
  }

  method CalculateLength(positions: seq<Position>) returns (result: int)
    ensures result == Length(positions)
  {
    result := 0;
    for i := 0 to |positions|
      invariant result == Length(positions[..i])
    {
      var p := positions[i];
      assert positions[..i + 1][..i] == positions[..i];
      if p.x > 0 {
        result := result + p.x;
      } else if p.x < 0 {
        result := result - p.x;
      } else if p.y > 0 {
        result := result + p.y;
      } else {
        result := result - p.y;
      }
    }
    assert positions[..|positions|] == positions;
  }

  // ---------- Removing the shortest move ----------

  function SquaredLength(p: Position): int {
    p.x * p.x + p.y * p.y
  }

  /** The index `k` is that of the first of the shortest moves. */
  ghost predicate IsShortest(ps: seq<Position>, k: int) {
    && 0 <= k < |ps|
    && (forall i :: 0 <= i < |ps| ==> SquaredLength(ps[k]) <= SquaredLength(ps[i]))
    && (forall i :: 0 <= i < k ==> SquaredLength(ps[k]) < SquaredLength(ps[i]))
  }

  /** The index of the first of the shortest moves. */
  function Shortest(ps: seq<Position>): (k: nat)
    requires ps != []
    ensures IsShortest(ps, k)
  {
    if |ps| == 1 then 0
    else
      var n := |ps| - 1;
      var k := Shortest(ps[..n]);
      if SquaredLength(ps[n]) < SquaredLength(ps[k]) then n else k
  }

  lemma ShortestUnique(ps: seq<Position>, i: int, j: int)
    requires IsShortest(ps, i) && IsShortest(ps, j)
    ensures i == j
  {
    assert SquaredLength(ps[i]) <= SquaredLength(ps[j]) && SquaredLength(ps[j]) <= SquaredLength(ps[i]);
    hide SquaredLength;
  }

  function RemoveShortest(ps: seq<Position>): (r: seq<Position>)
    ensures |r| == if ps == [] then 0 else |ps| - 1
  {
    if ps == [] then [] else ps[..Shortest(ps)] + ps[Shortest(ps) + 1..]
  }

  /** Removes the first of the shortest moves. */
  method ComputeWithoutShortest(positions: seq<Position>) returns (result: seq<Position>)
    ensures result == RemoveShortest(positions)
  {
    hide SquaredLength, Shortest;
    var shortest, shortestSoFar, firstTime := 0, 0, true;
    for i := 0 to |positions|
      invariant firstTime <==> i == 0
      invariant i > 0 ==> IsShortest(positions[..i], shortest) && shortestSoFar == SquaredLength(positions[shortest])
    {
      var length := SquaredLength(positions[i]);
      if firstTime {
        shortestSoFar, shortest, firstTime := length, i, false;
      } else if length < shortestSoFar {
        shortestSoFar, shortest := length, i;
      }
    }
    result := [];
    if positions != [] {
      assert positions[..|positions|] == positions;
      ShortestUnique(positions, shortest, Shortest(positions));
    }
    for i := 0 to |positions|
      invariant result == if i <= shortest then positions[..i] else positions[..shortest] + positions[shortest + 1..i]
    {
      if i != shortest {
        result := result + [positions[i]];
      }
    }
    assert positions != [] ==> positions[shortest + 1..] == positions[shortest + 1..|positions|];
  }
}
