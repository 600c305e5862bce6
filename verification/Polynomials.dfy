/** Polynomials over GF(2^8) as coefficient sequences, highest power first. */
module Polynomials {
  import opened Galois

  function Zeros(n: nat): (z: seq<bv8>)
    ensures |z| == n && forall i :: 0 <= i < n ==> z[i] == 0
  {
    seq(n, _ => 0)
  }

  /** The value of the polynomial at `x`. */
  function Eval(p: seq<bv8>, x: bv8): bv8 {
    if p == [] then 0 else Add(Mul(Eval(p[..|p| - 1], x), x), p[|p| - 1])
  }

  function Scale(c: bv8, p: seq<bv8>): (r: seq<bv8>)
    ensures |r| == |p| && forall i :: 0 <= i < |p| ==> r[i] == Mul(c, p[i])
  {
    seq(|p|, i requires 0 <= i < |p| => Mul(c, p[i]))
  }

  /** The sum of two polynomials, the second at most as long as the first; constant terms are aligned. */
  function Plus(p: seq<bv8>, q: seq<bv8>): (r: seq<bv8>)
    requires |q| <= |p|
    ensures |r| == |p|
    ensures forall i :: 0 <= i < |p| - |q| ==> r[i] == p[i]
    ensures forall i :: |p| - |q| <= i < |p| ==> r[i] == Add(p[i], q[i - (|p| - |q|)])
  {
    seq(|p|, i requires 0 <= i < |p| => if i < |p| - |q| then p[i] else Add(p[i], q[i - (|p| - |q|)]))
  }

  /** The product of `p` and a nonempty `g`: (p'x + c)g = (p'g)x + cg. */
  function Times(p: seq<bv8>, g: seq<bv8>): (r: seq<bv8>)
    requires g != []
    ensures |r| == |p| + |g| - 1
  {
    if p == [] then Zeros(|g| - 1)
    else Plus(Times(p[..|p| - 1], g) + [0], Scale(p[|p| - 1], g))
  }

  lemma {:induction false} EvalZeros(n: nat, x: bv8)
    ensures Eval(Zeros(n), x) == 0
  {
    hide Mul, Add;
    if n > 0 {
      EvalZeros(n - 1, x);
      assert Zeros(n)[..n - 1] == Zeros(n - 1);
      MulZero(x);
      AddZero(0);
    }
  }

  lemma {:induction false} EvalScale(c: bv8, p: seq<bv8>, x: bv8)
    ensures Eval(Scale(c, p), x) == Mul(c, Eval(p, x))
  {
    hide Mul, Add;
    if p == [] {
      MulZero(c);
    } else {
      var p' := p[..|p| - 1];
      EvalScale(c, p', x);
      assert Scale(c, p)[..|p| - 1] == Scale(c, p');
      MulAssociative(c, Eval(p', x), x);
      MulAddRight(c, Mul(Eval(p', x), x), p[|p| - 1]);
    }
  }

  lemma {:induction false} EvalPlus(p: seq<bv8>, q: seq<bv8>, x: bv8)
    requires |q| <= |p|
    ensures Eval(Plus(p, q), x) == Add(Eval(p, x), Eval(q, x))
  {
    hide Mul, Add;
    if q == [] {
      assert Plus(p, q) == p;
      AddZero(Eval(p, x));
    } else {
      var p', q' := p[..|p| - 1], q[..|q| - 1];
      var a, b := p[|p| - 1], q[|q| - 1];
      EvalPlus(p', q', x);
      assert Plus(p, q)[..|p| - 1] == Plus(p', q');
      MulAddLeft(Eval(p', x), Eval(q', x), x);
      AddRegroup(Mul(Eval(p', x), x), Mul(Eval(q', x), x), a, b);
    }
  }

  /** Evaluation turns products of polynomials into products of values. */
  lemma {:induction false} EvalTimes(p: seq<bv8>, g: seq<bv8>, x: bv8)
    requires g != []
    ensures Eval(Times(p, g), x) == Mul(Eval(p, x), Eval(g, x))
  {
    hide Mul, Add;
    if p == [] {
      EvalZeros(|g| - 1, x);
      MulZero(Eval(g, x));
    } else {
      var p', c := p[..|p| - 1], p[|p| - 1];
      var v, w := Eval(p', x), Eval(g, x);
      EvalTimes(p', g, x);
      var shifted := Times(p', g) + [0];
      assert shifted[..|shifted| - 1] == Times(p', g);
      AddZero(Mul(Mul(v, w), x));
      EvalScale(c, g, x);
      EvalPlus(shifted, Scale(c, g), x);
      MulAssociative(v, w, x);
      MulCommutative(w, x);
      MulAssociative(v, x, w);
      MulAddLeft(Mul(v, x), c, w);
    }
  }

  /** What appending the coefficient `c` to `p` does to the leading coefficients of a product with a monic `g`. */
  lemma TimesLeading(p: seq<bv8>, c: bv8, g: seq<bv8>)
    requires g != [] && g[0] == 1
    ensures Times(p + [c], g)[..|p|] == Times(p, g)[..|p|]
    ensures Times(p + [c], g)[|p|] == Add((Times(p, g) + [0])[|p|], c)
  {
    hide Mul, Add;
    assert (p + [c])[..|p|] == p;
    MulOneTwo(c);
  }

  /** With a monic second factor, the leading coefficients of a product determine the first factor. */
  lemma {:induction false} TimesMonicInjective(p: seq<bv8>, q: seq<bv8>, g: seq<bv8>)
    requires g != [] && g[0] == 1 && |p| == |q|
    requires Times(p, g)[..|p|] == Times(q, g)[..|q|]
    ensures p == q
  {
    hide Mul, Add, Times;
    if p != [] {
      var m := |p| - 1;
      var p', q', a, b := p[..m], q[..m], p[m], q[m];
      assert p == p' + [a] && q == q' + [b];
      TimesLeading(p', a, g);
      TimesLeading(q', b, g);
      var u, v := Times(p, g), Times(q, g);
      assert u[..m] == u[..|p|][..m] == v[..m];
      assert u[m] == u[..|p|][m] == v[m];
      TimesMonicInjective(p', q', g);
      AddCancel((Times(p', g) + [0])[m], a, b);
    }
  }
}
