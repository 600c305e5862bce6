/** What joining moves keeps. */
module GestureLaws {
  import opened Common
  import opened GestureMoves

  predicate Aligned(p: Position) {
    p.x == 0 || p.y == 0
  }

  ghost predicate AllAligned(ps: seq<Position>) {
    forall i :: 0 <= i < |ps| ==> Aligned(ps[i])
  }

  ghost predicate NoZero(ps: seq<Position>) {
    forall i :: 0 <= i < |ps| ==> ps[i] != ZERO
  }

  /** No two neighbours go in the same direction. */
  ghost predicate Reduced(ps: seq<Position>) {
    forall i :: 0 <= i < |ps| - 1 ==> !Joins(ps[i], ps[i + 1])
  }

  /** Where the moves lead to. */
  function Displacement(ps: seq<Position>): Position {
    if ps == [] then ZERO
    else
      var d, p := Displacement(ps[..|ps| - 1]), ps[|ps| - 1];
      Position(d.x + p.x, d.y + p.y)
  }

  lemma LengthSnoc(ps: seq<Position>, p: Position)
    ensures Length(ps + [p]) == Length(ps) + MoveLength(p)
    ensures Displacement(ps + [p]) == Position(Displacement(ps).x + p.x, Displacement(ps).y + p.y)
  {
    assert (ps + [p])[..|ps|] == ps;
  }

  lemma DirectionsAligned(ps: seq<Position>)
    ensures AllAligned(LimitDirections(ps))
    ensures (forall i :: 0 <= i < |ps| - 1 ==> ps[i] != ps[i + 1]) ==> NoZero(LimitDirections(ps))
  {
    forall i | 0 <= i < |ps| - 1
      ensures Aligned(MoveFrom(ps, i)) && (ps[i] != ps[i + 1] ==> MoveFrom(ps, i) != ZERO)
    {
      MoveAligned(ps[i], ps[i + 1]);
    }
    hide MoveFrom, Aligned;
  }

  lemma MoveAligned(p: Position, q: Position)
    ensures var move := Limit(q.x - p.x, q.y - p.y);
      Aligned(move) && (p != q ==> move != ZERO)
  {}

  /** Joining two moves of the same direction. */
  lemma JoinLaws(p: Position, q: Position, before: Position)
    requires Aligned(p) && Aligned(q) && Joins(p, q)
    ensures var r := Join(p, q);
      && Aligned(r) && r != ZERO && MoveLength(r) == MoveLength(p) + MoveLength(q)
      && r.x == p.x + q.x && r.y == p.y + q.y
      && (Joins(before, r) <==> Joins(before, p)) && (Joins(r, before) <==> Joins(p, before))
  {}

  lemma ReducedSnoc(ps: seq<Position>, last: Position, p: Position)
    requires Reduced(ps + [last])
    ensures !Joins(last, p) ==> Reduced(ps + [last] + [p])
    ensures (forall before :: Joins(before, p) <==> Joins(before, last)) ==> Reduced(ps + [p])
  {
    hide Joins;
    var s, t := ps + [last] + [p], ps + [p];
    if !Joins(last, p) {
      forall i | 0 <= i < |s| - 1
        ensures !Joins(s[i], s[i + 1])
      {
        if i < |ps| {
          assert s[i] == (ps + [last])[i] && s[i + 1] == (ps + [last])[i + 1];
        }
      }
    }
    if forall before :: Joins(before, p) <==> Joins(before, last) {
      forall i | 0 <= i < |t| - 1
        ensures !Joins(t[i], t[i + 1])
      {
        assert !Joins((ps + [last])[i], (ps + [last])[i + 1]);
      }
    }
  }

  lemma {:induction false} JoinAllLaws(ps: seq<Position>)
    requires ps != [] && AllAligned(ps)
    ensures var j := JoinAll(ps); var s := j.done + [j.last];
      && AllAligned(s) && Reduced(s) && |s| <= |ps| && Length(s) == Length(ps) && Displacement(s) == Displacement(ps)
      && (NoZero(ps) ==> NoZero(s))
  {
    var n := |ps| - 1;
    if n == 0 {
      assert [] + [ps[0]] == ps;
    } else {
      var init, p := ps[..n], ps[n];
      JoinAllLaws(init);
      assert ps == init + [p];
      LengthSnoc(init, p);
      ExtendLaws(JoinAll(init), p);
      hide Extend, Length, Displacement, Reduced;
    }
  }

  lemma ExtendLaws(j: Joined, p: Position)
    requires AllAligned(j.done + [j.last]) && Aligned(p) && Reduced(j.done + [j.last])
    ensures var before, s := j.done + [j.last], Extend(j, p).done + [Extend(j, p).last];
      && AllAligned(s) && Reduced(s) && |s| <= |before| + 1
      && Length(s) == Length(before) + MoveLength(p)
      && Displacement(s) == Position(Displacement(before).x + p.x, Displacement(before).y + p.y)
      && (NoZero(before) && p != ZERO ==> NoZero(s))
  {
    var last := j.last;
    LengthSnoc(j.done, last);
    assert (j.done + [last])[|j.done|] == last;
    if Joins(last, p) {
      JoinLaws(last, p, ZERO);
      forall before
        ensures Joins(before, Join(last, p)) <==> Joins(before, last)
      {
        JoinLaws(last, p, before);
      }
      ReducedSnoc(j.done, last, Join(last, p));
      LengthSnoc(j.done, Join(last, p));
      hide Length, Displacement, Reduced, MoveLength, Join, Joins;
    } else {
      ReducedSnoc(j.done, last, p);
      LengthSnoc(j.done + [last], p);
      hide Length, Displacement, Reduced, MoveLength, Join, Joins;
    }
  }

  /** Joining conserves the total length and the displacement of axis-parallel moves and leaves no two neighbours to
      join. */
  lemma SimplifyLaws(ps: seq<Position>)
    requires AllAligned(ps)
    ensures var s := Simplify(ps);
      && AllAligned(s) && Reduced(s) && |s| <= |ps| && Length(s) == Length(ps) && Displacement(s) == Displacement(ps)
      && (NoZero(ps) ==> NoZero(s))
  {
    if ps != [] {
      JoinAllLaws(ps);
      var j := JoinAll(ps);
      LengthSnoc(j.done, j.last);
      var s := j.done + [j.last];
      assert j.done == s[..|j.done|];
      hide Length, Displacement, JoinAll, Joins;
      assert forall i :: 0 <= i < |j.done| ==> s[i] == j.done[i];
    }
  }

  /** A list that cannot be reduced is left as it is. */
  lemma {:induction false} JoinAllFixed(ps: seq<Position>)
    requires ps != [] && Reduced(ps)
    ensures JoinAll(ps) == Joined(ps[..|ps| - 1], ps[|ps| - 1])
  {
    var n := |ps| - 1;
    if n > 0 {
      JoinAllFixed(ps[..n]);
      assert !Joins(ps[n - 1], ps[n]);
      assert ps[..n][..n - 1] + [ps[n - 1]] == ps[..n];
    }
  }

  lemma SimplifyFixed(ps: seq<Position>)
    requires Reduced(ps) && NoZero(ps)
    ensures Simplify(ps) == ps
  {
    if ps != [] {
      JoinAllFixed(ps);
      assert ps == ps[..|ps| - 1] + [ps[|ps| - 1]];
      assert ps[|ps| - 1] != ZERO;
    }
  }

  /** Removing the shortest move shortens the total length by exactly that move's length. */
  lemma {:induction false} LengthConcat(a: seq<Position>, b: seq<Position>)
    ensures Length(a + b) == Length(a) + Length(b)
  {
    if b == [] {
      assert a + b == a;
    } else {
      var init, p := b[..|b| - 1], b[|b| - 1];
      LengthConcat(a, init);
      LengthSnoc(a + init, p);
      LengthSnoc(init, p);
      hide Length;
      assert a + b == a + init + [p] && b == init + [p];
    }
  }

  lemma RemovalLoses(ps: seq<Position>)
    requires ps != []
    ensures Length(RemoveShortest(ps)) == Length(ps) - MoveLength(ps[Shortest(ps)])
  {
    hide Length, Shortest;
    WithoutMove(ps, Shortest(ps));
  }

  lemma WithoutMove(ps: seq<Position>, k: nat)
    requires k < |ps|
    ensures Length(ps[..k] + ps[k + 1..]) == Length(ps) - MoveLength(ps[k])
  {
    hide *;
    LengthConcat(ps[..k], ps[k + 1..]);
    LengthConcat(ps[..k], ps[k..]);
    assert ps == ps[..k] + ps[k..];
    SingleLength(ps[k]);
    LengthConcat([ps[k]], ps[k + 1..]);
    assert ps[k..] == [ps[k]] + ps[k + 1..];
  }

  lemma SingleLength(p: Position)
    ensures Length([p]) == MoveLength(p)
  {
    assert Length([]) == 0 && [p][..0] == [];
    hide MoveLength;
  }

  /** Among axis-parallel moves the one removed is also the first of the shortest by length. */
  lemma ShortestByLength(ps: seq<Position>)
    requires ps != [] && AllAligned(ps)
    ensures forall i :: 0 <= i < |ps| ==> MoveLength(ps[Shortest(ps)]) <= MoveLength(ps[i])
    ensures forall i :: 0 <= i < Shortest(ps) ==> MoveLength(ps[Shortest(ps)]) < MoveLength(ps[i])
    ensures forall p :: p in ps ==> MoveLength(p) == Abs(p.x) + Abs(p.y)
  {
    var k := Shortest(ps);
    forall i | 0 <= i < |ps|
      ensures MoveLength(ps[k]) <= MoveLength(ps[i])
      ensures i < k ==> MoveLength(ps[k]) < MoveLength(ps[i])
    {
      assert SquaredLength(ps[k]) <= SquaredLength(ps[i]);
      assert i < k ==> SquaredLength(ps[k]) < SquaredLength(ps[i]);
      AlignedSquare(ps[k]);
      AlignedSquare(ps[i]);
      hide Shortest, MoveLength, SquaredLength;
      RootMonotone(MoveLength(ps[k]), MoveLength(ps[i]));
    }
  }

  /** A displacement keeps its longer part, and of two equal parts the vertical one. */
  lemma LimitKeepsLonger(dx: int, dy: int)
    ensures Limit(dx, dy).x == 0 || (Limit(dx, dy).x == dx && Limit(dx, dy).y == 0)
    ensures MoveLength(Limit(dx, dy)) >= Abs(dx) && MoveLength(Limit(dx, dy)) >= Abs(dy)
    ensures Limit(dx, dy).x == 0 ==> Limit(dx, dy).y == dy
    ensures Abs(dx) == Abs(dy) ==> Limit(dx, dy).x == 0
  {}

  lemma AlignedSquare(p: Position)
    requires Aligned(p)
    ensures SquaredLength(p) == MoveLength(p) * MoveLength(p)
  {}

  lemma RootMonotone(a: nat, b: nat)
    requires a * a <= b * b
    ensures a <= b
  {
    if b < a {
      SquareMonotone(b, a);
      assert false;
    }
  }

  lemma SquareMonotone(a: nat, b: nat)
    requires a < b
    ensures a * a < b * b
  {
    assert b * b == a * b + (b - a) * b && a * b == a * a + a * (b - a);
  }
}
