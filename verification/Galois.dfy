/** Arithmetic of the field GF(2^8) with the reducing polynomial x^8 + x^4 + x^3 + x^2 + 1 (0x11D),
    the coefficient field of the Reed-Solomon code of ISO/IEC 18004. */
module Galois {

  /** Addition, and also subtraction: the field has characteristic 2. */
  function Add(a: bv8, b: bv8): bv8 {
    a ^ b
  }

  /** Multiplication by the field element 2, the polynomial x. */
  function Double(z: bv8): bv8 {
    (z << 1) ^ (if z & 0x80 != 0 then 0x1D else 0)
  }

  /** Bit `i` of `y`, counted from the least significant one. */
  predicate Bit(y: bv8, i: nat) {
    match i
    case 0 => y & 0x01 != 0
    case 1 => y & 0x02 != 0
    case 2 => y & 0x04 != 0
    case 3 => y & 0x08 != 0
    case 4 => y & 0x10 != 0
    case 5 => y & 0x20 != 0
    case 6 => y & 0x40 != 0
    case 7 => y & 0x80 != 0
    case _ => false
  }

  function Gate(x: bv8, bit: bool): bv8 {
    if bit then x else 0
  }

  /** x times the number formed by the top `k` bits of `y`. */
  function Horner(x: bv8, y: bv8, k: nat): bv8
    requires k <= 8
  {
    if k == 0 then 0 else Add(Double(Horner(x, y, k - 1)), Gate(x, Bit(y, 8 - k)))
  }

  /** The field product. */
  function Mul(x: bv8, y: bv8): bv8 {
    Horner(x, y, 8)
  }

  /** The multiplicand taken `bit` times, on a 32-bit word. */
  function BitTimes(bit: bv8, x: bv8): bv32 {
    (bit as bv32) * (x as bv32)
  }

  /** Russian peasant multiplication. The source's `int` is a 32-bit word here; `z` never leaves 9 bits. */
  method Multiply(x: bv8, y: bv8) returns (r: bv8)
    ensures r == Mul(x, y)
  {
    hide Add, Double, Gate, Bit, BitTimes;
    var z: bv32 := 0;
    var i := 7;
    while 0 <= i
      invariant -1 <= i <= 7
      invariant z < 256 && z as bv8 == Horner(x, y, 7 - i)
    {
      ShiftedBit(y, i);
      var bit := (y >> i) & 1;
      z := MultiplyStep(z, x, bit);
      i := i - 1;
    }
    r := z as bv8;
  }

  method MultiplyStep(z0: bv32, x: bv8, bit: bv8) returns (z: bv32)
    requires z0 < 256 && (bit == 0 || bit == 1)
    ensures z < 256 && z as bv8 == Add(Double(z0 as bv8), Gate(x, bit == 1))
  {
    hide Add, Double, Gate, BitTimes;
    ReduceStep(z0);
    z := (z0 << 1) ^ ((z0 >> 7) * 0x11D);
    GateStep(z, bit, x);
    z := z ^ BitTimes(bit, x);
  }

  /** One doubling with reduction, as the loop computes it on a wider word. */
  lemma ReduceStep(z: bv32)
    requires z < 256
    ensures var w := (z << 1) ^ ((z >> 7) * 0x11D); w < 256 && w as bv8 == Double(z as bv8)
  {
    if z & 0x80 == 0 {
      assert z >> 7 == 0;
    } else {
      assert z >> 7 == 1;
    }
  }

  lemma GateStep(z: bv32, bit: bv8, x: bv8)
    requires z < 256 && (bit == 0 || bit == 1)
    ensures var w := z ^ BitTimes(bit, x); w < 256 && w as bv8 == Add(z as bv8, Gate(x, bit == 1))
  {
    if bit == 0 {
      assert BitTimes(bit, x) == 0;
    } else {
      assert BitTimes(bit, x) == x as bv32;
    }
  }

  lemma ShiftedBit(y: bv8, i: nat)
    requires i < 8
    ensures (y >> i) & 1 == if Bit(y, i) then 1 else 0
  {
    match i
    case 0 => assert y >> i == y;
    case 1 => assert y >> i == y >> 1; assert (y >> 1) & 1 == if y & 0x02 != 0 then 1 else 0;
    case 2 => assert y >> i == y >> 2; assert (y >> 2) & 1 == if y & 0x04 != 0 then 1 else 0;
    case 3 => assert y >> i == y >> 3; assert (y >> 3) & 1 == if y & 0x08 != 0 then 1 else 0;
    case 4 => assert y >> i == y >> 4; assert (y >> 4) & 1 == if y & 0x10 != 0 then 1 else 0;
    case 5 => assert y >> i == y >> 5; assert (y >> 5) & 1 == if y & 0x20 != 0 then 1 else 0;
    case 6 => assert y >> i == y >> 6; assert (y >> 6) & 1 == if y & 0x40 != 0 then 1 else 0;
    case 7 => assert y >> i == y >> 7; assert (y >> 7) & 1 == if y & 0x80 != 0 then 1 else 0;
  }

  // ---------- Laws of addition ----------

  lemma AddAssociative(a: bv8, b: bv8, c: bv8)
    ensures Add(Add(a, b), c) == Add(a, Add(b, c))
  {
    assert (a ^ b) ^ c == a ^ (b ^ c);
  }

  lemma AddCommutative(a: bv8, b: bv8)
    ensures Add(a, b) == Add(b, a)
  {}

  lemma AddZero(a: bv8)
    ensures Add(a, 0) == a && Add(0, a) == a && Add(a, a) == 0
  {}

  lemma AddCancel(u: bv8, a: bv8, b: bv8)
    requires Add(u, a) == Add(u, b)
    ensures a == b
  {
    hide Add;
    AddAssociative(u, u, a);
    AddAssociative(u, u, b);
    AddZero(u);
    AddZero(a);
    AddZero(b);
  }

  /** Exchanges the two inner terms of a sum of four. */
  lemma AddRegroup(p: bv8, q: bv8, r: bv8, s: bv8)
    ensures Add(Add(p, q), Add(r, s)) == Add(Add(p, r), Add(q, s))
  {
    hide Add;
    AddAssociative(p, q, Add(r, s));
    AddAssociative(q, r, s);
    AddCommutative(q, r);
    AddAssociative(r, q, s);
    AddAssociative(p, r, Add(q, s));
  }

  lemma DoubleAdd(a: bv8, b: bv8)
    ensures Double(Add(a, b)) == Add(Double(a), Double(b))
  {
    if a & 0x80 != 0 {
      if b & 0x80 != 0 {
      } else {
      }
    } else {
      if b & 0x80 != 0 {
      } else {
      }
    }
  }

  lemma GateAdd(a: bv8, b: bv8, bit: bool)
    ensures Gate(Add(a, b), bit) == Add(Gate(a, bit), Gate(b, bit))
  {
    AddZero(0);
  }

  lemma GateZero(x: bv8)
    ensures Gate(0, true) == 0 && Gate(x, false) == 0 && Gate(x, true) == x
  {}

  lemma GateDouble(x: bv8, bit: bool)
    ensures Gate(Double(x), bit) == Double(Gate(x, bit))
  {}

  lemma BitAdd(a: bv8, b: bv8, i: nat)
    ensures Bit(Add(a, b), i) == (Bit(a, i) != Bit(b, i))
  {
    match i
    case 0 => assert ((a ^ b) & 0x01 != 0) == ((a & 0x01 != 0) != (b & 0x01 != 0));
    case 1 => assert ((a ^ b) & 0x02 != 0) == ((a & 0x02 != 0) != (b & 0x02 != 0));
    case 2 => assert ((a ^ b) & 0x04 != 0) == ((a & 0x04 != 0) != (b & 0x04 != 0));
    case 3 => assert ((a ^ b) & 0x08 != 0) == ((a & 0x08 != 0) != (b & 0x08 != 0));
    case 4 => assert ((a ^ b) & 0x10 != 0) == ((a & 0x10 != 0) != (b & 0x10 != 0));
    case 5 => assert ((a ^ b) & 0x20 != 0) == ((a & 0x20 != 0) != (b & 0x20 != 0));
    case 6 => assert ((a ^ b) & 0x40 != 0) == ((a & 0x40 != 0) != (b & 0x40 != 0));
    case 7 => assert ((a ^ b) & 0x80 != 0) == ((a & 0x80 != 0) != (b & 0x80 != 0));
    case _ =>
  }

  // ---------- Laws of multiplication ----------

  lemma {:induction false} HornerAddLeft(a: bv8, b: bv8, y: bv8, k: nat)
    requires k <= 8
    ensures Horner(Add(a, b), y, k) == Add(Horner(a, y, k), Horner(b, y, k))
  {
    hide Add, Double, Bit, Gate;
    if k == 0 {
      AddZero(0);
    } else {
      HornerAddLeft(a, b, y, k - 1);
      var p, q, bit := Horner(a, y, k - 1), Horner(b, y, k - 1), Bit(y, 8 - k);
      DoubleAdd(p, q);
      GateAdd(a, b, bit);
      AddRegroup(Double(p), Double(q), Gate(a, bit), Gate(b, bit));
    }
  }

  lemma {:induction false} HornerAddRight(x: bv8, a: bv8, b: bv8, k: nat)
    requires k <= 8
    ensures Horner(x, Add(a, b), k) == Add(Horner(x, a, k), Horner(x, b, k))
  {
    hide Add, Double, Bit;
    if k == 0 {
      AddZero(0);
    } else {
      HornerAddRight(x, a, b, k - 1);
      var p, q := Horner(x, a, k - 1), Horner(x, b, k - 1);
      DoubleAdd(p, q);
      BitAdd(a, b, 8 - k);
      AddZero(x);
      AddZero(0);
      AddRegroup(Double(p), Double(q), Gate(x, Bit(a, 8 - k)), Gate(x, Bit(b, 8 - k)));
    }
  }

  lemma {:induction false} HornerDouble(x: bv8, y: bv8, k: nat)
    requires k <= 8
    ensures Horner(Double(x), y, k) == Double(Horner(x, y, k))
  {
    hide Add, Bit, Gate;
    if k > 0 {
      HornerDouble(x, y, k - 1);
      var p, bit := Horner(x, y, k - 1), Bit(y, 8 - k);
      hide Double;
      GateDouble(x, bit);
      DoubleAdd(Double(p), Gate(x, bit));
    }
  }

  lemma MulAddLeft(a: bv8, b: bv8, y: bv8)
    ensures Mul(Add(a, b), y) == Add(Mul(a, y), Mul(b, y))
  {
    HornerAddLeft(a, b, y, 8);
  }

  lemma MulAddRight(x: bv8, a: bv8, b: bv8)
    ensures Mul(x, Add(a, b)) == Add(Mul(x, a), Mul(x, b))
  {
    HornerAddRight(x, a, b, 8);
  }

  lemma {:induction false} HornerZeroLeft(y: bv8, k: nat)
    requires k <= 8
    ensures Horner(0, y, k) == 0
  {
    if k > 0 {
      HornerZeroLeft(y, k - 1);
    }
  }

  lemma {:induction false} HornerZeroRight(x: bv8, k: nat)
    requires k <= 8
    ensures Horner(x, 0, k) == 0
  {
    if k > 0 {
      HornerZeroRight(x, k - 1);
    }
  }

  lemma MulZero(x: bv8)
    ensures Mul(x, 0) == 0 && Mul(0, x) == 0
  {
    HornerZeroLeft(x, 8);
    HornerZeroRight(x, 8);
  }

  /** The product starting from the one bits of a multiplier of the form 2^j. */
  lemma {:induction false} HornerBelow(x: bv8, y: bv8, j: nat, k: nat)
    requires k <= j <= 8 && forall i :: 8 - j <= i < 8 ==> !Bit(y, i)
    ensures Horner(x, y, k) == 0
  {
    if k > 0 {
      HornerBelow(x, y, j, k - 1);
    }
  }

  lemma MulOneTwo(x: bv8)
    ensures Mul(x, 1) == x && Mul(x, 2) == Double(x)
  {
    assert forall i :: 1 <= i < 8 ==> !Bit(1, i);
    assert forall i :: 2 <= i < 8 ==> !Bit(2, i);
    assert Horner(x, 1, 7) == 0 by { HornerBelow(x, 1, 7, 7); }
    assert Horner(x, 2, 6) == 0 by { HornerBelow(x, 2, 6, 6); }
    assert Horner(x, 2, 7) == x;
  }

  lemma OneMul(y: bv8)
    ensures Mul(1, y) == y
  {
    assert Horner(1, y, 1) == y >> 7;
    assert Horner(1, y, 2) == y >> 6;
    assert Horner(1, y, 3) == y >> 5;
    assert Horner(1, y, 4) == y >> 4;
    assert Horner(1, y, 5) == y >> 3;
    assert Horner(1, y, 6) == y >> 2;
    assert Horner(1, y, 7) == y >> 1;
  }

  /** Building up the left factor bit by bit gives the product with the factors exchanged. */
  lemma {:induction false} MulHorner(c: bv8, y: bv8, k: nat)
    requires k <= 8
    ensures Mul(Horner(1, c, k), y) == Horner(y, c, k)
  {
    hide Add, Double, Bit, Gate;
    if k == 0 {
      MulZero(y);
    } else {
      MulHorner(c, y, k - 1);
      var p, g := Horner(1, c, k - 1), Gate(1, Bit(c, 8 - k));
      MulAddLeft(Double(p), g, y);
      HornerDouble(p, y, 8);
      hide Mul;
      OneMul(y);
      MulZero(y);
      GateZero(1);
      GateZero(y);
      if Bit(c, 8 - k) {
      }
    }
  }

  lemma MulCommutative(x: bv8, y: bv8)
    ensures Mul(x, y) == Mul(y, x)
  {
    MulHorner(x, y, 8);
    OneMul(x);
  }

  lemma MulDoubleRight(x: bv8, y: bv8)
    ensures Mul(x, Double(y)) == Double(Mul(x, y))
  {
    hide Double, Horner;
    MulCommutative(x, y);
    MulCommutative(x, Double(y));
    HornerDouble(y, x, 8);
  }

  lemma {:induction false} HornerOfProduct(a: bv8, b: bv8, c: bv8, k: nat)
    requires k <= 8
    ensures Mul(a, Horner(b, c, k)) == Horner(Mul(a, b), c, k)
  {
    hide Add, Double, Bit, Gate;
    if k == 0 {
      MulZero(a);
    } else {
      HornerOfProduct(a, b, c, k - 1);
      var p, g := Horner(b, c, k - 1), Gate(b, Bit(c, 8 - k));
      MulAddRight(a, Double(p), g);
      MulDoubleRight(a, p);
      hide Mul;
      MulZero(a);
      GateZero(b);
      GateZero(Mul(a, b));
      if Bit(c, 8 - k) {
      }
    }
  }

  lemma MulAssociative(a: bv8, b: bv8, c: bv8)
    ensures Mul(Mul(a, b), c) == Mul(a, Mul(b, c))
  {
    HornerOfProduct(a, b, c, 8);
  }

  // ---------- The product as a reduced polynomial product ----------

  /** Shifts a pattern up by one and adds a low-order term. */
  function ShiftIn(w: bv16, g: bv16): bv16 {
    (w << 1) ^ g
  }

  /** The carry-less product of x and the top `k` bits of `y`: polynomials over GF(2) as bit patterns. */
  function Carryless(x: bv8, y: bv8, k: nat): bv16
    requires k <= 8
  {
    if k == 0 then 0 else ShiftIn(Carryless(x, y, k - 1), Gate(x, Bit(y, 8 - k)) as bv16)
  }

  /** The carry-less product of q and 0x11D. */
  function TimesModulus(q: bv16): bv16 {
    (q << 8) ^ (q << 4) ^ (q << 3) ^ (q << 2) ^ q
  }

  function WideAdd(w: bv16, r: bv8): bv16 {
    w ^ (r as bv16)
  }

  /** The carries taken out while multiplying. */
  function Carries(x: bv8, y: bv8, k: nat): bv16
    requires k <= 8
  {
    if k == 0 then 0 else ShiftIn(Carries(x, y, k - 1), (Horner(x, y, k - 1) >> 7) as bv16)
  }

  lemma ReductionStep(w: bv16, q: bv16, h: bv8, g: bv8)
    requires w == WideAdd(TimesModulus(q), h)
    ensures ShiftIn(w, g as bv16) == WideAdd(TimesModulus(ShiftIn(q, (h >> 7) as bv16)), Add(Double(h), g))
  {
    if h & 0x80 == 0 {
      assert h >> 7 == 0;
    } else {
      assert h >> 7 == 1;
    }
  }

  /** The partial products agree with the carry-less product up to a multiple of the modulus. */
  lemma {:induction false} MulReduces(x: bv8, y: bv8, k: nat)
    requires k <= 8
    ensures Carryless(x, y, k) == WideAdd(TimesModulus(Carries(x, y, k)), Horner(x, y, k))
  {
    hide TimesModulus, WideAdd, ShiftIn, Add, Double, Gate, Bit;
    if k == 0 {
      TimesModulusZero();
    } else {
      MulReduces(x, y, k - 1);
      ReductionStep(Carryless(x, y, k - 1), Carries(x, y, k - 1), Horner(x, y, k - 1), Gate(x, Bit(y, 8 - k)));
    }
  }

  lemma TimesModulusZero()
    ensures WideAdd(TimesModulus(0), 0) == 0
  {}

  /** The field product is the remainder of the carry-less product modulo x^8 + x^4 + x^3 + x^2 + 1. */
  lemma MulIsRemainder(x: bv8, y: bv8)
    ensures exists q: bv16 :: Carryless(x, y, 8) == WideAdd(TimesModulus(q), Mul(x, y))
  {
    MulReduces(x, y, 8);
  }

  // ---------- Inverses ----------

  function Squared(x: bv8): bv8 {
    Mul(x, x)
  }

  /** x to the power 2^i. */
  function Frobenius(x: bv8, i: nat): bv8 {
    if i == 0 then x else Squared(Frobenius(x, i - 1))
  }

  /** x to the power 2^i - 1. */
  function Norm(x: bv8, i: nat): bv8 {
    if i == 0 then 1 else Mul(Norm(x, i - 1), Frobenius(x, i - 1))
  }

  lemma SquareAdd(a: bv8, b: bv8)
    ensures Squared(Add(a, b)) == Add(Squared(a), Squared(b))
  {
    hide Add, Mul;
    MulAddLeft(a, b, Add(a, b));
    MulAddRight(a, a, b);
    MulAddRight(b, a, b);
    MulCommutative(a, b);
    var c := Mul(a, b);
    AddRegroup(Mul(a, a), c, Mul(b, a), Mul(b, b));
    AddCommutative(c, Mul(b, b));
    AddAssociative(Mul(b, b), c, c);
    AddZero(c);
    AddZero(Mul(b, b));
    assert Squared(Add(a, b)) == Add(Add(Mul(a, a), c), Add(c, Mul(b, b)));
    AddAssociative(Mul(a, a), c, Add(c, Mul(b, b)));
    AddAssociative(c, c, Mul(b, b));
  }

  /** Exchanges the two inner factors of a product of four. */
  lemma MulRegroup(p: bv8, q: bv8, r: bv8, s: bv8)
    ensures Mul(Mul(p, q), Mul(r, s)) == Mul(Mul(p, r), Mul(q, s))
  {
    hide Mul;
    MulAssociative(p, q, Mul(r, s));
    MulAssociative(q, r, s);
    MulCommutative(q, r);
    MulAssociative(r, q, s);
    MulAssociative(p, r, Mul(q, s));
  }

  lemma {:induction false} FrobeniusAdd(a: bv8, b: bv8, i: nat)
    ensures Frobenius(Add(a, b), i) == Add(Frobenius(a, i), Frobenius(b, i))
  {
    hide Add, Squared;
    if i > 0 {
      FrobeniusAdd(a, b, i - 1);
      SquareAdd(Frobenius(a, i - 1), Frobenius(b, i - 1));
    }
  }

  lemma {:induction false} FrobeniusMul(a: bv8, b: bv8, i: nat)
    ensures Frobenius(Mul(a, b), i) == Mul(Frobenius(a, i), Frobenius(b, i))
  {
    hide Mul;
    if i > 0 {
      FrobeniusMul(a, b, i - 1);
      var p, q := Frobenius(a, i - 1), Frobenius(b, i - 1);
      MulRegroup(p, q, p, q);
    }
  }

  lemma SmallSquares()
    ensures Squared(0x02) == 0x04 && Squared(0x04) == 0x10 && Squared(0x10) == 0x1D && Squared(0x1D) == 0x4C
  {
    hide *;
    Square02();
    Square04();
    Square10();
    Square1D();
  }

  lemma Square02()
    ensures Squared(0x02) == 0x04
  {}

  lemma Square04()
    ensures Squared(0x04) == 0x10
  {}

  lemma Square10()
    ensures Squared(0x10) == 0x1D
  {}

  lemma Square1D()
    ensures Squared(0x1D) == 0x4C
  {}

  lemma LargeSquares()
    ensures Squared(0x4C) == 0x9D && Squared(0x9D) == 0x5F && Squared(0x5F) == 0x85 && Squared(0x85) == 0x02
  {
    hide *;
    Square4C();
    Square9D();
    Square5F();
    Square85();
  }

  lemma Square4C()
    ensures Squared(0x4C) == 0x9D
  {}

  lemma Square9D()
    ensures Squared(0x9D) == 0x5F
  {}

  lemma Square5F()
    ensures Squared(0x5F) == 0x85
  {}

  lemma Square85()
    ensures Squared(0x85) == 0x02
  {}

  lemma SquaresOfTwo()
    ensures Frobenius(2, 8) == 2
  {
    hide Mul, Squared;
    SmallSquares();
    LargeSquares();
    assert Frobenius(2, 4) == 0x4C;
  }

  lemma {:induction false} FrobeniusOfBit(bit: bool, i: nat)
    ensures Frobenius(Gate(1, bit), i) == Gate(1, bit)
  {
    if i > 0 {
      FrobeniusOfBit(bit, i - 1);
      hide Mul;
      OneMul(1);
      MulZero(0);
    }
  }

  lemma {:induction false} FrobeniusOfHorner(x: bv8, k: nat)
    requires k <= 8
    ensures Frobenius(Horner(1, x, k), 8) == Horner(1, x, k)
  {
    hide Add, Double, Bit, Gate, Mul, Frobenius;
    if k == 0 {
      FrobeniusOfBit(false, 8);
      GateZero(1);
    } else {
      FrobeniusOfHorner(x, k - 1);
      var p, bit := Horner(1, x, k - 1), Bit(x, 8 - k);
      FrobeniusAdd(Double(p), Gate(1, bit), 8);
      FrobeniusOfBit(bit, 8);
      MulOneTwo(p);
      FrobeniusMul(p, 2, 8);
      SquaresOfTwo();
    }
  }

  /** Every element is a root of X^256 - X. */
  lemma FrobeniusFixed(x: bv8)
    ensures Frobenius(x, 8) == x
  {
    FrobeniusOfHorner(x, 8);
    OneMul(x);
  }

  lemma {:induction false} NormTimes(x: bv8, i: nat)
    ensures Mul(Norm(x, i), x) == Frobenius(x, i)
  {
    hide Mul;
    if i == 0 {
      OneMul(x);
    } else {
      NormTimes(x, i - 1);
      var n, f := Norm(x, i - 1), Frobenius(x, i - 1);
      MulAssociative(n, f, x);
      MulCommutative(f, x);
      MulAssociative(n, x, f);
    }
  }

  lemma {:induction false} NormFactor(x: bv8, i: nat) returns (w: bv8)
    requires i > 0
    ensures Norm(x, i) == Mul(x, w)
  {
    hide Mul;
    if i == 1 {
      w := 1;
      MulCommutative(1, x);
    } else {
      var v := NormFactor(x, i - 1);
      w := Mul(v, Frobenius(x, i - 1));
      MulAssociative(x, v, Frobenius(x, i - 1));
    }
  }

  /** The doublings are written out on the bits, which is what a bit-level solver handles best. */
  lemma IdempotentBits(x: bv8, h1: bv8, h2: bv8, h3: bv8, h4: bv8, h5: bv8, h6: bv8, h7: bv8)
    requires h1 == if x & 0x80 != 0 then x else 0
    requires h2 == ((h1 << 1) ^ (if h1 & 0x80 != 0 then 0x1D else 0)) ^ (if x & 0x40 != 0 then x else 0)
    requires h3 == ((h2 << 1) ^ (if h2 & 0x80 != 0 then 0x1D else 0)) ^ (if x & 0x20 != 0 then x else 0)
    requires h4 == ((h3 << 1) ^ (if h3 & 0x80 != 0 then 0x1D else 0)) ^ (if x & 0x10 != 0 then x else 0)
    requires h5 == ((h4 << 1) ^ (if h4 & 0x80 != 0 then 0x1D else 0)) ^ (if x & 0x08 != 0 then x else 0)
    requires h6 == ((h5 << 1) ^ (if h5 & 0x80 != 0 then 0x1D else 0)) ^ (if x & 0x04 != 0 then x else 0)
    requires h7 == ((h6 << 1) ^ (if h6 & 0x80 != 0 then 0x1D else 0)) ^ (if x & 0x02 != 0 then x else 0)
    requires x == ((h7 << 1) ^ (if h7 & 0x80 != 0 then 0x1D else 0)) ^ (if x & 0x01 != 0 then x else 0)
    ensures x == 0 || x == 1
  {}

  lemma Idempotent(e: bv8)
    requires Mul(e, e) == e
    ensures e == 0 || e == 1
  {
    HornerFirst(e, e);
    IdempotentBits(e, Horner(e, e, 1), Horner(e, e, 2), Horner(e, e, 3), Horner(e, e, 4), Horner(e, e, 5),
        Horner(e, e, 6), Horner(e, e, 7));
  }

  lemma HornerFirst(x: bv8, y: bv8)
    ensures Horner(x, y, 1) == Gate(x, Bit(y, 7))
  {
    hide Bit, Gate, Add;
    assert Double(0) == 0;
    AddZero(Gate(x, Bit(y, 7)));
  }

  lemma Inverse(x: bv8) returns (w: bv8)
    requires x != 0
    ensures Mul(x, w) == 1
  {
    hide Mul;
    var e := Norm(x, 8);
    w := NormFactor(x, 8);
    NormTimes(x, 8);
    FrobeniusFixed(x);
    MulAssociative(e, x, w);
    Idempotent(e);
    MulZero(x);
  }

  lemma NoZeroDivisors(x: bv8, y: bv8)
    requires Mul(x, y) == 0
    ensures x == 0 || y == 0
  {
    hide Mul;
    if x != 0 {
      var w := Inverse(x);
      MulCommutative(x, w);
      MulAssociative(w, x, y);
      OneMul(y);
      MulZero(w);
    }
  }

  lemma MulCancel(x: bv8, a: bv8, b: bv8)
    requires x != 0 && Mul(x, a) == Mul(x, b)
    ensures a == b
  {
    hide Mul;
    var w := Inverse(x);
    MulCommutative(x, w);
    MulAssociative(w, x, a);
    MulAssociative(w, x, b);
    OneMul(a);
    OneMul(b);
  }

  // ---------- The powers of the generator 2 ----------

  function Pow(i: nat): bv8 {
    if i == 0 then 1 else Double(Pow(i - 1))
  }

  lemma {:induction false} PowAdd(i: nat, j: nat)
    ensures Pow(i + j) == Mul(Pow(i), Pow(j))
  {
    hide Double, Mul;
    if j == 0 {
      MulOneTwo(Pow(i));
    } else {
      PowAdd(i, j - 1);
      MulDoubleRight(Pow(i), Pow(j - 1));
    }
  }

  lemma {:induction false} PowNonzero(i: nat)
    ensures Pow(i) != 0
  {
    if i > 0 {
      PowNonzero(i - 1);
    }
  }

  lemma {:induction false} PowMultiple(m: nat, k: nat)
    requires Pow(m) == 1
    ensures Pow(m * k) == 1
  {
    hide Double;
    if k == 0 {
      assert m * k == 0;
    } else {
      PowMultiple(m, k - 1);
      PowAdd(m * (k - 1), m);
      OneMul(1);
      assert m * (k - 1) + m == m * k;
      hide Mul;
    }
  }

  lemma ProductsA()
    ensures Mul(0x80, 0x1D) == 0x26 && Mul(0x1D, 0x1D) == 0x4C && Mul(0x98, 0x98) == 0x4E && Mul(0x4E, 0x98) == 0x0A
  {}

  lemma ProductsB()
    ensures Mul(0x0A, 0x4E) == 0xD6 && Mul(0xD6, 0xD6) == 0xD7 && Mul(0xD7, 0xD6) == 1
  {}

  /** The exponents that decide the order of 2: every proper divisor of 255 divides 15, 51 or 85. */
  lemma LandmarkPowers()
    ensures Pow(15) == 0x26 && Pow(51) == 0x0A && Pow(85) == 0xD6 && Pow(255) == 1
  {
    assert Pow(7) == 0x80 && Pow(8) == 0x1D;
    hide Mul, Double;
    ProductsA();
    ProductsB();
    PowAdd(7, 8);
    PowAdd(8, 8);
    assert Pow(17) == Double(Pow(16));
    assert Double(0x4C) == 0x98 by { MulOneTwo(0x4C); }
    PowAdd(17, 17);
    PowAdd(34, 17);
    PowAdd(51, 34);
    PowAdd(85, 85);
    PowAdd(170, 85);
  }

  lemma ProperDivisor(d: nat) returns (n: nat, k: nat)
    requires 0 < d < 255 && 255 % d == 0
    ensures n in {15, 51, 85} && n == d * k
  {
    var q := 255 / d;
    assert d * q == 255;
    if d <= 16 {
      assert d == 1 || d == 3 || d == 5 || d == 15;
      n := 15;
      k := if d == 1 then 15 else if d == 3 then 5 else if d == 5 then 3 else 1;
    } else {
      assert 1 < q < 16;
      assert q == 3 || q == 5 || q == 15;
      n := if q == 3 then 85 else 51;
      k := if q == 15 then 3 else 1;
    }
  }

  /** The generator has order 255. */
  lemma {:induction false} PowNotOne(d: nat)
    requires 0 < d < 255
    ensures Pow(d) != 1
  {
    hide Pow, Mul;
    LandmarkPowers();
    if Pow(d) == 1 {
      var q, r := 255 / d, 255 % d;
      if r == 0 {
        var n, k := ProperDivisor(d);
        PowMultiple(d, k);
      } else {
        PowMultiple(d, q);
        assert 255 == d * q + r;
        PowAdd(d * q, r);
        OneMul(Pow(r));
        PowNotOne(r);
      }
    }
  }

  /** The elements 2^0, ..., 2^254 are pairwise distinct. */
  lemma PowInjective(i: nat, j: nat)
    requires i < j < 255
    ensures Pow(i) != Pow(j)
  {
    hide Pow, Mul;
    if Pow(i) == Pow(j) {
      PowAdd(i, j - i);
      PowNonzero(i);
      MulOneTwo(Pow(i));
      MulCancel(Pow(i), Pow(j - i), 1);
      PowNotOne(j - i);
    }
  }
}
