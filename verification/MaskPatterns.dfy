/** The eight mask patterns, told by what they look like. */
module MaskPatterns {
  import opened Penalty
  import opened ZigzagScan
  import opened QrGrid

  /** Mask 0 is a chequerboard that starts inverted. */
  lemma Chequerboard(x: nat, y: nat)
    ensures Inverts(0, 0, 0)
    ensures Inverts(0, x + 1, y) <==> !Inverts(0, x, y)
    ensures Inverts(0, x, y + 1) <==> !Inverts(0, x, y)
  {}

  /** Mask 1 inverts every other row, starting with the first. */
  lemma EveryOtherRow(x: nat, y: nat)
    ensures Inverts(1, 0, 0)
    ensures Inverts(1, x, y) <==> Inverts(1, 0, y)
    ensures Inverts(1, x, y + 1) <==> !Inverts(1, x, y)
  {}

  /** Mask 2 inverts every third column, starting with the first. */
  lemma EveryThirdColumn(x: nat, y: nat)
    ensures Inverts(2, 0, 0) && !Inverts(2, 1, 0) && !Inverts(2, 2, 0)
    ensures Inverts(2, x, y) <==> Inverts(2, x, 0)
    ensures Inverts(2, x + 3, y) <==> Inverts(2, x, y)
  {}

  /** Mask 3 inverts every third of the diagonals that go down to the left, starting with the first. */
  lemma EveryThirdDiagonal(x: nat, y: nat)
    ensures Inverts(3, 0, 0) && !Inverts(3, 1, 0) && !Inverts(3, 2, 0)
    ensures Inverts(3, x + 1, y) <==> Inverts(3, x, y + 1)
    ensures Inverts(3, x + 3, y) <==> Inverts(3, x, y)
  {}

  /** Mask 4 is a chequerboard of blocks that are three modules wide and two high. */
  lemma ChequeredBlocks(a: nat, b: nat, i: nat, j: nat)
    requires i < 3 && j < 2
    ensures Inverts(4, 3 * a + i, 2 * b + j) <==> (a % 2 == b % 2)
  {
    assert (3 * a + i) / 3 == a && (2 * b + j) / 2 == b;
  }

  /** Mask 5 inverts where the product of the coordinates is a multiple of 6. */
  lemma ProductMultiple(x: nat, y: nat)
    ensures Inverts(5, x, y) <==> exists k: nat :: x * y == 6 * k
  {
    var p := x * y;
    BySix(p);
    if p % 6 == 0 {
      assert p == 6 * (p / 6);
    }
    if k: nat :| p == 6 * k {
      SixTimes(k);
    }
  }

  lemma SixTimes(k: nat)
    ensures 6 * k % 6 == 0
  {}

  /** Mask 6 inverts where the product of the coordinates leaves less than 3 modulo 6. */
  lemma ProductSmall(x: nat, y: nat)
    ensures Inverts(6, x, y) <==> x * y % 6 < 3
  {
    BySix(x * y);
  }

  lemma BySix(p: nat)
    ensures p % 6 == 0 <==> p % 2 + p % 3 == 0
    ensures p % 6 < 3 <==> (p % 2 + p % 3) % 2 == 0
  {
    RestsOf(p, p / 6, p % 6);
    var r := p % 6;
    assert r == 0 || r == 1 || r == 2 || r == 3 || r == 4 || r == 5;
  }

  lemma RestsOf(p: nat, q: nat, r: nat)
    requires p == 6 * q + r
    ensures p % 2 == r % 2 && p % 3 == r % 3
  {
    SameRest(2, 3 * q, r);
    SameRest(3, 2 * q, r);
  }

  lemma SameRest(m: nat, q: nat, r: nat)
    requires m == 2 || m == 3
    ensures (m * q + r) % m == r % m
  {}

  /** Mask 7 is the chequerboard, turned round where both coordinates leave the same rest modulo 3 that is not 0. */
  lemma TurnedChequerboard(x: nat, y: nat)
    ensures Inverts(7, x, y) <==> (Inverts(0, x, y) <==> !(x % 3 == y % 3 && x % 3 != 0))
  {
    ProductByThree(x, y);
  }

  lemma ProductByThree(x: nat, y: nat)
    ensures x * y % 3 == 1 <==> x % 3 == y % 3 && x % 3 != 0
  {
    var a, b, i, j := x / 3, y / 3, x % 3, y % 3;
    assert x == 3 * a + i && y == 3 * b + j;
    assert x * y == 3 * (a * (3 * b + j) + i * b) + i * j;
    SameRest(3, a * (3 * b + j) + i * b, i * j);
    if i == 0 || j == 0 {
    } else if i == 1 {
    } else if j == 1 {
    } else {
      assert i == 2 && j == 2 && i * j == 4;
    }
  }

  /** Masking changes exactly the modules that the pattern inverts and that are not function modules. */
  lemma MaskChanges(g: Grid, functions: Grid, msk: nat, c: Cell)
    requires Square(g) && Square(functions) && |g| == |functions| && msk < 8 && InGrid(g, c)
    ensures At(Masked(g, functions, msk), c) != At(g, c) <==> Inverts(msk, c.x, c.y) && !At(functions, c)
  {
    MaskedAt(g, functions, msk);
    hide Masked, Inverts;
  }
}
