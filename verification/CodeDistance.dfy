/** What the error correction bytes of a block are for: codewords of different data lie far apart. */
module CodeDistance {
  import opened Galois
  import opened Polynomials
  import opened ReedSolomon

  /** The number of nonzero bytes. */
  function Weight(c: seq<bv8>): nat {
    if c == [] then 0 else (if c[0] != 0 then 1 else 0) + Weight(c[1..])
  }

  /** The number of positions at which two words differ. */
  function Distance(a: seq<bv8>, b: seq<bv8>): nat
    requires |a| == |b|
  {
    if a == [] then 0 else (if a[0] != b[0] then 1 else 0) + Distance(a[1..], b[1..])
  }

  /** The word has the roots 2^0, ..., 2^(n-1). */
  ghost predicate HasRoots(c: seq<bv8>, n: nat) {
    forall i :: 0 <= i < n ==> Eval(c, Pow(i)) == 0
  }

  /** The sum over all bytes c[k] of c[k] * X^s * f(X), where X = 2^(|c|-1-k) is the locator of position k. */
  function Moment(c: seq<bv8>, f: seq<bv8>, s: nat): bv8 {
    if c == [] then 0
    else
      var e := |c| - 1;
      Add(Mul(c[0], Mul(Pow(Scaled(e, s)), Eval(f, Pow(e)))), Moment(c[1..], f, s))
  }

  /** The exponent of the power `s` of a power of 2. */
  function Scaled(e: nat, s: nat): nat {
    e * s
  }

  lemma ScaledSteps(e: nat, s: nat)
    ensures Scaled(0, s) == 0 && Scaled(e, 0) == 0
    ensures Scaled(e + 1, s) == Scaled(e, s) + s && Scaled(e, s + 1) == Scaled(e, s) + e
  {}

  lemma EvalSingle(a: bv8, x: bv8)
    ensures Eval([a], x) == a && Eval([], x) == 0
  {
    assert [a][..0] == [];
    MulZero(x);
    AddZero(a);
  }

  lemma EvalSnoc(p: seq<bv8>, a: bv8, x: bv8)
    ensures Eval(p + [a], x) == Add(Mul(Eval(p, x), x), a)
  {
    hide Add, Mul;
    assert (p + [a])[..|p|] == p;
  }

  /** Evaluation at a power of 2, splitting off the leading coefficient. */
  lemma {:induction false} EvalFront(c: seq<bv8>, s: nat)
    requires c != []
    ensures Eval(c, Pow(s)) == Add(Mul(c[0], Pow(Scaled(|c| - 1, s))), Eval(c[1..], Pow(s)))
  {
    hide *;
    var x := Pow(s);
    if |c| == 1 {
      assert c == [c[0]] && c[1..] == [];
      EvalSingle(c[0], x);
      ScaledSteps(0, s);
      PowSteps(0);
      MulOneTwo(c[0]);
      AddZero(c[0]);
    } else {
      var d, z := c[..|c| - 1], c[|c| - 1];
      assert c == d + [z] && c[1..] == d[1..] + [z];
      EvalFront(d, s);
      EvalSnoc(d, z, x);
      EvalSnoc(d[1..], z, x);
      var lead, rest := Mul(c[0], Pow(Scaled(|d| - 1, s))), Eval(d[1..], x);
      MulAddLeft(lead, rest, x);
      MulAssociative(c[0], Pow(Scaled(|d| - 1, s)), x);
      PowAdd(Scaled(|d| - 1, s), s);
      ScaledSteps(|d| - 1, s);
      AddAssociative(Mul(lead, x), Mul(rest, x), z);
    }
  }

  lemma MomentUnfold(c: seq<bv8>, f: seq<bv8>, s: nat)
    requires c != []
    ensures Moment(c, f, s) == Add(Mul(c[0], Mul(Pow(Scaled(|c| - 1, s)), Eval(f, Pow(|c| - 1)))), Moment(c[1..], f, s))
  {}

  lemma MomentOfEmpty(f: seq<bv8>, s: nat)
    ensures Moment([], f, s) == 0
  {}

  /** The plain power sums of a word are its values at the powers of 2. */
  lemma {:induction false} MomentOfOne(c: seq<bv8>, s: nat)
    ensures Moment(c, [1], s) == Eval(c, Pow(s))
  {
    if c != [] {
      hide *;
      MomentUnfold(c, [1], s);
      EvalSingle(1, Pow(|c| - 1));
      MulOneTwo(Pow(Scaled(|c| - 1, s)));
      MomentOfOne(c[1..], s);
      EvalFront(c, s);
    }
  }

  lemma {:induction false} MomentOfNothing(c: seq<bv8>, s: nat)
    ensures Moment(c, [], s) == 0
  {
    if c != [] {
      hide *;
      MomentUnfold(c, [], s);
      EvalSingle(0, Pow(|c| - 1));
      MulZero(Pow(Scaled(|c| - 1, s)));
      MulZero(c[0]);
      AddZero(0);
      MomentOfNothing(c[1..], s);
    }
  }

  /** One summand of a moment: c * X^s * (f(X) * X + a). */
  lemma MomentTerm(c: bv8, e: nat, s: nat, v: bv8, a: bv8)
    ensures Mul(c, Mul(Pow(Scaled(e, s)), Add(Mul(v, Pow(e)), a)))
            == Add(Mul(c, Mul(Pow(Scaled(e, s + 1)), v)), Mul(a, Mul(c, Pow(Scaled(e, s)))))
  {
    hide *;
    var p, x := Pow(Scaled(e, s)), Pow(e);
    MulAddRight(p, Mul(v, x), a);
    MulCommutative(v, x);
    MulAssociative(p, x, v);
    PowAdd(Scaled(e, s), e);
    ScaledSteps(e, s);
    MulAddRight(c, Mul(Pow(Scaled(e, s + 1)), v), Mul(p, a));
    MulAssociative(c, p, a);
    MulCommutative(Mul(c, p), a);
  }

  lemma {:induction false} MomentSnoc(c: seq<bv8>, f: seq<bv8>, a: bv8, s: nat)
    ensures Moment(c, f + [a], s) == Add(Moment(c, f, s + 1), Mul(a, Moment(c, [1], s)))
  {
    hide *;
    if c == [] {
      MomentOfEmpty(f + [a], s);
      MomentOfEmpty(f, s + 1);
      MomentOfEmpty([1], s);
      MulZero(a);
      AddZero(0);
    } else {
      var e, rest := |c| - 1, c[1..];
      MomentSnoc(rest, f, a, s);
      MomentUnfold(c, f + [a], s);
      MomentUnfold(c, f, s + 1);
      MomentUnfold(c, [1], s);
      EvalSnoc(f, a, Pow(e));
      EvalSingle(1, Pow(e));
      MulOneTwo(Pow(Scaled(e, s)));
      MomentTerm(c[0], e, s, Eval(f, Pow(e)), a);
      MulAddRight(a, Mul(c[0], Pow(Scaled(e, s))), Moment(rest, [1], s));
      AddRegroup(Mul(c[0], Mul(Pow(Scaled(e, s + 1)), Eval(f, Pow(e)))), Mul(a, Mul(c[0], Pow(Scaled(e, s)))),
                 Moment(rest, f, s + 1), Mul(a, Moment(rest, [1], s)));
    }
  }

  /** A word with n roots is orthogonal to every polynomial with at most n coefficients. */
  lemma {:induction false} MomentVanishes(c: seq<bv8>, f: seq<bv8>, s: nat, n: nat)
    requires HasRoots(c, n) && s + |f| <= n
    ensures Moment(c, f, s) == 0
    decreases |f|
  {
    hide Add, Mul, Pow, Moment, Eval;
    if f == [] {
      MomentOfNothing(c, s);
    } else {
      var g, a := f[..|f| - 1], f[|f| - 1];
      assert f == g + [a];
      MomentSnoc(c, g, a, s);
      MomentVanishes(c, g, s + 1, n);
      MomentOfOne(c, s);
      MulZero(a);
      AddZero(0);
    }
  }

  /** The polynomial whose roots are the locators of the nonzero bytes, the one with exponent `keep` excepted. */
  function Locator(c: seq<bv8>, keep: nat): (f: seq<bv8>) {
    if c == [] then [1]
    else
      var rest := Locator(c[1..], keep);
      if c[0] != 0 && |c| - 1 != keep then TimesLinear(rest, Pow(|c| - 1)) else rest
  }

  lemma {:induction false} LocatorLength(c: seq<bv8>, keep: nat)
    ensures |Locator(c, keep)| == 1 + Weight(c) - (if keep < |c| && c[|c| - 1 - keep] != 0 then 1 else 0)
  {
    hide TimesLinear, Pow;
    if c != [] {
      LocatorLength(c[1..], keep);
    }
  }

  lemma {:induction false} LocatorRoots(c: seq<bv8>, keep: nat, k: nat)
    requires k < |c| && c[k] != 0 && |c| - 1 - k != keep
    ensures Eval(Locator(c, keep), Pow(|c| - 1 - k)) == 0
  {
    hide Add, Mul, Pow, Eval, TimesLinear;
    var x, rest := Pow(|c| - 1 - k), Locator(c[1..], keep);
    if k == 0 {
      EvalTimesLinear(rest, x, x);
      AddZero(x);
      MulZero(Eval(rest, x));
    } else {
      LocatorRoots(c[1..], keep, k - 1);
      EvalTimesLinear(rest, Pow(|c| - 1), x);
      MulZero(Add(x, Pow(|c| - 1)));
    }
  }

  lemma {:induction false} LocatorAtKept(c: seq<bv8>, keep: nat)
    requires |c| <= 255 && keep < 255
    ensures Eval(Locator(c, keep), Pow(keep)) != 0
  {
    hide Add, Mul, Pow, Eval, TimesLinear;
    var x := Pow(keep);
    if c == [] {
      EvalSingle(1, x);
    } else {
      LocatorAtKept(c[1..], keep);
      var e, rest := |c| - 1, Locator(c[1..], keep);
      if c[0] != 0 && e != keep {
        EvalTimesLinear(rest, Pow(e), x);
        if e < keep { PowInjective(e, keep); } else { PowInjective(keep, e); }
        if Add(x, Pow(e)) == 0 {
          AddZero(x);
          AddCancel(x, Pow(e), x);
        }
        if Mul(Eval(rest, x), Add(x, Pow(e))) == 0 {
          NoZeroDivisors(Eval(rest, x), Add(x, Pow(e)));
        }
      }
    }
  }

  /** A moment in which every summand but the one with exponent `keep` vanishes. */
  lemma {:induction false} MomentConcentrated(c: seq<bv8>, f: seq<bv8>, keep: nat)
    requires forall k :: 0 <= k < |c| && c[k] != 0 && |c| - 1 - k != keep ==> Eval(f, Pow(|c| - 1 - k)) == 0
    ensures Moment(c, f, 0) == if keep < |c| then Mul(c[|c| - 1 - keep], Eval(f, Pow(keep))) else 0
  {
    hide Add, Mul, Pow, Eval, Moment;
    if c == [] {
      MomentOfEmpty(f, 0);
    } else {
      var e, rest := |c| - 1, c[1..];
      forall k | 0 <= k < |rest| && rest[k] != 0 && |rest| - 1 - k != keep
        ensures Eval(f, Pow(|rest| - 1 - k)) == 0
      {
        assert rest[k] == c[k + 1] && |rest| - 1 - k == |c| - 1 - (k + 1);
      }
      MomentConcentrated(rest, f, keep);
      MomentUnfold(c, f, 0);
      ScaledSteps(e, 0);
      PowSteps(0);
      OneMul(Eval(f, Pow(e)));
      MulZero(c[0]);
      MulZero(Eval(f, Pow(e)));
      var term := Mul(c[0], Eval(f, Pow(e)));
      AddZero(term);
      if keep < e {
        assert c[0] == 0 || Eval(f, Pow(e)) == 0;
        AddZero(Mul(c[|c| - 1 - keep], Eval(f, Pow(keep))));
      }
    }
  }

  /** A nonzero word of at most 255 bytes with n roots has more than n nonzero bytes. */
  lemma MinimumWeight(c: seq<bv8>, n: nat, k: nat)
    requires |c| <= 255 && HasRoots(c, n) && k < |c| && c[k] != 0
    ensures Weight(c) > n
  {
    hide Add, Mul, Pow, Eval, Moment, Locator, Weight;
    var keep := |c| - 1 - k;
    var f := Locator(c, keep);
    LocatorLength(c, keep);
    if Weight(c) <= n {
      MomentVanishes(c, f, 0, n);
      forall j | 0 <= j < |c| && c[j] != 0 && |c| - 1 - j != keep
        ensures Eval(f, Pow(|c| - 1 - j)) == 0
      {
        LocatorRoots(c, keep, j);
      }
      MomentConcentrated(c, f, keep);
      LocatorAtKept(c, keep);
      NoZeroDivisors(c[k], Eval(f, Pow(keep)));
    }
  }

  lemma {:induction false} DistanceIsWeight(a: seq<bv8>, b: seq<bv8>)
    requires |a| == |b|
    ensures Distance(a, b) == Weight(Plus(a, b))
  {
    hide Add;
    if a != [] {
      DistanceIsWeight(a[1..], b[1..]);
      assert Plus(a, b)[1..] == Plus(a[1..], b[1..]);
      AddZero(a[0]);
      if Add(a[0], b[0]) == 0 {
        AddCancel(a[0], b[0], a[0]);
      }
    }
  }

  /** Blocks of equal length with different data differ, as codewords, in more than n bytes. */
  lemma CodewordDistance(a: seq<bv8>, b: seq<bv8>, n: nat)
    requires n > 0 && |a| == |b| && |a| + n <= 255 && a != b
    ensures Distance(Codeword(a, n), Codeword(b, n)) > n
  {
    hide Add, Mul, Pow, Eval, Weight, Distance;
    var u, v := Codeword(a, n), Codeword(b, n);
    var c := Plus(u, v);
    forall i | 0 <= i < n
      ensures Eval(c, Pow(i)) == 0
    {
      CodewordRoots(a, n, i);
      CodewordRoots(b, n, i);
      EvalPlus(u, v, Pow(i));
      AddZero(0);
    }
    DistanceIsWeight(u, v);
    var k :| 0 <= k < |a| && a[k] != b[k];
    assert u[k] == u[..|a|][k] && v[k] == v[..|a|][k];
    if Add(u[k], v[k]) == 0 {
      AddZero(u[k]);
      AddCancel(u[k], v[k], u[k]);
    }
    MinimumWeight(c, n, k);
  }

  lemma {:induction false} DistanceTriangle(a: seq<bv8>, b: seq<bv8>, w: seq<bv8>)
    requires |a| == |b| == |w|
    ensures Distance(a, b) <= Distance(w, a) + Distance(w, b)
  {
    if a != [] {
      DistanceTriangle(a[1..], b[1..], w[1..]);
    }
  }

  /** A received word with at most n/2 damaged bytes determines the data of its block. */
  lemma UniqueDecoding(a: seq<bv8>, b: seq<bv8>, n: nat, w: seq<bv8>)
    requires n > 0 && |a| == |b| && |a| + n <= 255 && |w| == |a| + n
    requires Distance(w, Codeword(a, n)) <= n / 2 && Distance(w, Codeword(b, n)) <= n / 2
    ensures a == b
  {
    hide Codeword;
    if a != b {
      CodewordDistance(a, b, n);
      DistanceTriangle(Codeword(a, n), Codeword(b, n), w);
    }
  }
}
