/** The error correction code of a QR block: generator polynomial, systematic encoder and what the code guarantees. */
module ReedSolomon {
  import opened Galois
  import opened Polynomials
  import opened Wrappers

  /** The product of `p` and the linear polynomial x - r. */
  function TimesLinear(p: seq<bv8>, r: bv8): (q: seq<bv8>)
    ensures |q| == |p| + 1
  {
    Plus(p + [0], Scale(r, p))
  }

  /** (x - 2^0)(x - 2^1)...(x - 2^(n-1)), with its leading coefficient. */
  function Generator(n: nat): (g: seq<bv8>)
    ensures |g| == n + 1
  {
    if n == 0 then [1] else TimesLinear(Generator(n - 1), Pow(n - 1))
  }

  /** (x - 2^0)(x - 2^1)...(x - 2^(n-1)) as a function of a field element. */
  function RootProduct(n: nat, x: bv8): bv8 {
    if n == 0 then 1 else Mul(RootProduct(n - 1, x), Add(x, Pow(n - 1)))
  }

  lemma EvalTimesLinear(p: seq<bv8>, r: bv8, x: bv8)
    ensures Eval(TimesLinear(p, r), x) == Mul(Eval(p, x), Add(x, r))
  {
    hide Mul, Add;
    var v := Eval(p, x);
    assert (p + [0])[..|p|] == p;
    AddZero(Mul(v, x));
    EvalScale(r, p, x);
    EvalPlus(p + [0], Scale(r, p), x);
    MulAddRight(v, x, r);
    MulCommutative(v, r);
  }

  lemma {:induction false} GeneratorMonic(n: nat)
    ensures Generator(n)[0] == 1
  {
    hide Mul, Add;
    if n > 0 {
      GeneratorMonic(n - 1);
    }
  }

  lemma {:induction false} GeneratorValue(n: nat, x: bv8)
    ensures Eval(Generator(n), x) == RootProduct(n, x)
  {
    hide Mul, Add;
    if n == 0 {
      assert Eval([], x) == 0;
      MulZero(x);
      AddZero(1);
      assert [1][..0] == [];
    } else {
      GeneratorValue(n - 1, x);
      EvalTimesLinear(Generator(n - 1), Pow(n - 1), x);
    }
  }

  lemma {:induction false} GeneratorRoot(n: nat, i: nat)
    requires i < n
    ensures Eval(Generator(n), Pow(i)) == 0
  {
    hide Mul, Add, Pow, Eval, Generator;
    GeneratorValue(n, Pow(i));
    if i == n - 1 {
      AddZero(Pow(i));
      MulZero(RootProduct(n - 1, Pow(i)));
    } else {
      GeneratorRoot(n - 1, i);
      GeneratorValue(n - 1, Pow(i));
      MulZero(Add(Pow(i), Pow(n - 1)));
    }
  }

  /** The last `n` coefficients of `p` after padding it with leading zeros. */
  function LowCoefficients(p: seq<bv8>, n: nat): (r: seq<bv8>)
    ensures |r| == n
  {
    (Zeros(n) + p)[|p|..]
  }

  /** The divisor polynomial of the given degree, without its leading coefficient 1. */
  method ComputeDivisor(degree: int) returns (divisor: Option<seq<bv8>>)
    ensures divisor.Some? <==> 1 <= degree <= 255
    ensures divisor.Some? ==> [1] + divisor.value == Generator(degree)
  {
    hide *;
    if degree < 1 || degree > 255 {
      return None;
    }
    var result := new bv8[degree](_ => 0);
    result[degree - 1] := 1;
    LowOfOne(result[..]);
    var root: bv8 := 1;
    PowSteps(0);
    for i := 0 to degree
      invariant result[..] == LowCoefficients(Generator(i), degree)
      invariant root == Pow(i)
    {
      ghost var before := result[..];
      for j := 0 to degree
        invariant forall k :: 0 <= k < j ==> result[k] == LinearStep(before, root, k)
        invariant forall k :: j <= k < degree ==> result[k] == before[k]
      {
        LinearStepCases(before, root, j);
        result[j] := Multiply(result[j], root);
        if j + 1 < degree {
          result[j] := Add(result[j], result[j + 1]);
        }
      }
      LinearStepLow(Generator(i), root, degree);
      GeneratorStep(i);
      assert result[..] == LowCoefficients(Generator(i + 1), degree);
      PowSteps(i);
      root := Multiply(root, 2);
    }
    divisor := Some(result[..]);
    LowOfGenerator(degree);
  }

  lemma PowSteps(i: nat)
    ensures Pow(0) == 1 && Pow(i + 1) == Mul(Pow(i), 2)
  {
    MulOneTwo(Pow(i));
  }

  lemma GeneratorStep(n: nat)
    ensures Generator(0) == [1] && Generator(n + 1) == TimesLinear(Generator(n), Pow(n))
  {}

  lemma LowOfOne(r: seq<bv8>)
    requires r != [] && r[|r| - 1] == 1 && forall i :: 0 <= i < |r| - 1 ==> r[i] == 0
    ensures r == LowCoefficients(Generator(0), |r|)
  {}

  lemma LowOfGenerator(n: nat)
    ensures [1] + LowCoefficients(Generator(n), n) == Generator(n)
  {
    GeneratorMonic(n);
    hide Generator;
    LowIsTail(Generator(n), n);
  }

  lemma LowIsTail(p: seq<bv8>, n: nat)
    requires |p| == n + 1
    ensures LowCoefficients(p, n) == p[1..] && [p[0]] + p[1..] == p
  {
    hide Zeros;
    DropFront(Zeros(n), p, n + 1);
  }

  lemma DropFront(front: seq<bv8>, back: seq<bv8>, n: nat)
    requires |front| <= n <= |front| + |back|
    ensures (front + back)[n..] == back[n - |front|..]
  {}

  lemma LinearStepCases(p: seq<bv8>, root: bv8, k: nat)
    requires k < |p|
    ensures LinearStep(p, root, k) == if k + 1 < |p| then Add(Mul(p[k], root), p[k + 1]) else Mul(p[k], root)
  {}

  /** Coefficient k of the low part of `p` times x - root, from the coefficients of the low part of `p`. */
  function LinearStep(p: seq<bv8>, root: bv8, k: nat): bv8
    requires k < |p|
  {
    if k + 1 < |p| then Add(Mul(p[k], root), p[k + 1]) else Mul(p[k], root)
  }

  lemma LinearStepLow(p: seq<bv8>, root: bv8, n: nat)
    ensures forall k :: 0 <= k < n ==>
      LowCoefficients(TimesLinear(p, root), n)[k] == LinearStep(LowCoefficients(p, n), root, k)
  {
    hide Mul, Add;
    var low, product := LowCoefficients(p, n), TimesLinear(p, root);
    forall k | 0 <= k < n
      ensures LowCoefficients(product, n)[k] == LinearStep(low, root, k)
    {
      MulZero(root);
      AddZero(0);
      MulCommutative(low[k], root);
      AddCommutative(Mul(low[k], root), if k + 1 < n then low[k + 1] else 0);
      AddZero(Mul(low[k], root));
      AddZero(if k + 1 < n then low[k + 1] else 0);
      var t := |p| + 1 + k - n;
      if t > 0 {
        assert product[t] == Add((p + [0])[t], Mul(root, p[t - 1]));
      }
    }
  }

  // ---------- Systematic encoding ----------

  /** Shifts one data byte into the remainder register. */
  function RemainderStep(register: seq<bv8>, divisor: seq<bv8>, b: bv8): (r: seq<bv8>)
    requires |register| == |divisor| > 0
    ensures |r| == |divisor|
  {
    Plus(register[1..] + [0], Scale(Add(b, register[0]), divisor))
  }

  function Remainder(data: seq<bv8>, divisor: seq<bv8>): (r: seq<bv8>)
    requires divisor != []
    ensures |r| == |divisor|
  {
    if data == [] then Zeros(|divisor|)
    else RemainderStep(Remainder(data[..|data| - 1], divisor), divisor, data[|data| - 1])
  }

  /** The remainder loop. The source's callers never pass an empty divisor. */
  method ComputeRemainder(data: seq<bv8>, divisor: seq<bv8>) returns (result: seq<bv8>)
    requires divisor != []
    ensures result == Remainder(data, divisor)
  {
    hide Add, Mul;
    result := Zeros(|divisor|);
    for k := 0 to |data|
      invariant result == Remainder(data[..k], divisor)
    {
      var factor := Add(data[k], result[0]);
      result := result[1..];
      result := result + [0];
      ghost var shifted := result;
      for i := 0 to |result|
        invariant |result| == |divisor|
        invariant forall j :: 0 <= j < i ==> result[j] == Add(shifted[j], Mul(factor, divisor[j]))
        invariant forall j :: i <= j < |result| ==> result[j] == shifted[j]
      {
        var product := Multiply(divisor[i], factor);
        MulCommutative(divisor[i], factor);
        result := result[i := Add(result[i], product)];
      }
      assert result == Plus(shifted, Scale(factor, divisor));
      assert data[..k + 1][..k] == data[..k];
    }
    assert data[..|data|] == data;
  }

  /** The factors by which the divisor was taken, one per data byte: the quotient of the division. */
  function Quotient(data: seq<bv8>, divisor: seq<bv8>): (q: seq<bv8>)
    requires divisor != []
    ensures |q| == |data|
  {
    if data == [] then []
    else
      var d := data[..|data| - 1];
      Quotient(d, divisor) + [Add(data[|data| - 1], Remainder(d, divisor)[0])]
  }

  /** data * x^n + remainder == quotient * (x^n + divisor), where n is the divisor's degree. */
  lemma {:induction false} DivisionIdentity(data: seq<bv8>, divisor: seq<bv8>)
    requires divisor != []
    ensures data + Remainder(data, divisor) == Times(Quotient(data, divisor), [1] + divisor)
  {
    hide *;
    var g := [1] + divisor;
    if data == [] {
      DivisionOfNothing(divisor);
    } else {
      var d, b := data[..|data| - 1], data[|data| - 1];
      assert data == d + [b];
      var register, q := Remainder(d, divisor), Quotient(d, divisor);
      DivisionIdentity(d, divisor);
      DivisionUnfold(d, b, divisor);
      TimesUnfold(q, Add(b, register[0]), g);
      DivisionStep(d, register, divisor, b);
    }
  }

  lemma DivisionOfNothing(divisor: seq<bv8>)
    requires divisor != []
    ensures [] + Remainder([], divisor) == Times(Quotient([], divisor), [1] + divisor)
  {
    assert [] + Zeros(|divisor|) == Zeros(|divisor|);
  }

  lemma DivisionUnfold(d: seq<bv8>, b: bv8, divisor: seq<bv8>)
    requires divisor != []
    ensures Remainder(d + [b], divisor) == RemainderStep(Remainder(d, divisor), divisor, b)
    ensures Quotient(d + [b], divisor) == Quotient(d, divisor) + [Add(b, Remainder(d, divisor)[0])]
  {
    hide Add, Mul, RemainderStep;
    assert (d + [b])[..|d|] == d;
  }

  lemma TimesUnfold(p: seq<bv8>, c: bv8, g: seq<bv8>)
    requires g != []
    ensures Times(p + [c], g) == Plus(Times(p, g) + [0], Scale(c, g))
  {
    hide Plus, Scale;
    assert (p + [c])[..|p|] == p;
  }

  lemma DivisionStep(d: seq<bv8>, register: seq<bv8>, divisor: seq<bv8>, b: bv8)
    requires |register| == |divisor| > 0
    ensures Plus(d + register + [0], Scale(Add(b, register[0]), [1] + divisor))
      == d + [b] + RemainderStep(register, divisor, b)
  {
    hide Add, Mul;
    var factor := Add(b, register[0]);
    MulOneTwo(factor);
    AddCommutative(b, register[0]);
    AddAssociative(register[0], register[0], b);
    AddZero(register[0]);
    AddZero(b);
    assert Scale(factor, [1] + divisor) == [factor] + Scale(factor, divisor);
    hide Scale;
    assert d + register + [0] == d + [register[0]] + (register[1..] + [0]);
    PlusSplit(d, register[0], register[1..] + [0], factor, Scale(factor, divisor));
  }

  lemma PlusSplit(a: seq<bv8>, x: bv8, p: seq<bv8>, c: bv8, q: seq<bv8>)
    requires |p| == |q|
    ensures Plus(a + [x] + p, [c] + q) == a + [Add(x, c)] + Plus(p, q)
  {
    hide Add;
  }

  /** A word of n more bytes than `data` that starts with `data` is a multiple of the divisor
      exactly when the n bytes are the computed remainder. */
  lemma RemainderUnique(data: seq<bv8>, divisor: seq<bv8>, q: seq<bv8>, r: seq<bv8>)
    requires divisor != [] && |q| == |data| && |r| == |divisor|
    ensures data + r == Times(q, [1] + divisor) <==> q == Quotient(data, divisor) && r == Remainder(data, divisor)
  {
    DivisionIdentity(data, divisor);
    var g := [1] + divisor;
    if data + r == Times(q, g) {
      assert Times(q, g)[..|q|] == data == Times(Quotient(data, divisor), g)[..|q|];
      TimesMonicInjective(q, Quotient(data, divisor), g);
      assert r == (data + r)[|data|..];
      assert Remainder(data, divisor) == (data + Remainder(data, divisor))[|data|..];
    }
  }

  /** The codeword of a block: its data followed by its error correction bytes. */
  function Codeword(data: seq<bv8>, n: nat): (c: seq<bv8>)
    requires n > 0
    ensures |c| == |data| + n && c[..|data|] == data
  {
    data + Remainder(data, Generator(n)[1..])
  }

  /** Every codeword has the roots 2^0, ..., 2^(n-1). */
  lemma CodewordRoots(data: seq<bv8>, n: nat, i: nat)
    requires i < n
    ensures Eval(Codeword(data, n), Pow(i)) == 0
  {
    hide Add, Mul, Pow;
    var g := Generator(n);
    GeneratorMonic(n);
    assert g == [1] + g[1..];
    DivisionIdentity(data, g[1..]);
    var q := Quotient(data, g[1..]);
    EvalTimes(q, g, Pow(i));
    GeneratorRoot(n, i);
    MulZero(Eval(q, Pow(i)));
  }
}
