/** What the check bits of format and version words are for: words of different data lie far apart. */
module CheckCodes {
  import opened QrTables
  import opened QrGrid

  function Gated(q: bv32, bit: bv32, g: bv32): bv32 {
    if q & bit != 0 then g else 0
  }

  /** The carry-less product of a number below 64 and a generator polynomial. */
  function CarrylessProduct(q: bv32, g: bv32): bv32 {
    Gated(q, 0x01, g) ^ Gated(q, 0x02, g << 1) ^ Gated(q, 0x04, g << 2)
    ^ Gated(q, 0x08, g << 3) ^ Gated(q, 0x10, g << 4) ^ Gated(q, 0x20, g << 5)
  }

  /** The word is a multiple of the generator by one of the numbers below the limit. */
  ghost predicate IsMultiple(w: bv32, g: bv32, limit: bv32) {
    exists q: bv32 :: q < limit && w == CarrylessProduct(q, g)
  }

  lemma MultipleIntro(q: bv32, g: bv32, limit: bv32)
    requires q < limit
    ensures IsMultiple(CarrylessProduct(q, g), g, limit)
  {
    hide CarrylessProduct;
  }

  /** The number of ones among the 18 low bits. */
  function Ones(w: bv32): bv32 {
    (w & 1) + ((w >> 1) & 1) + ((w >> 2) & 1) + ((w >> 3) & 1) + ((w >> 4) & 1) + ((w >> 5) & 1) + ((w >> 6) & 1)
    + ((w >> 7) & 1) + ((w >> 8) & 1) + ((w >> 9) & 1) + ((w >> 10) & 1) + ((w >> 11) & 1) + ((w >> 12) & 1)
    + ((w >> 13) & 1) + ((w >> 14) & 1) + ((w >> 15) & 1) + ((w >> 16) & 1) + ((w >> 17) & 1)
  }

  /** The number of bits in which two words differ. */
  function BitDistance(a: bv32, b: bv32): bv32 {
    Ones(a ^ b)
  }

  lemma DistanceSymmetric(a: bv32, b: bv32)
    ensures BitDistance(a, b) == BitDistance(b, a)
  {
    hide Ones;
    assert a ^ b == b ^ a;
  }

  // ---------- Format words ----------

  /** The factor that gives a word whose high bits are the data. */
  function FormatQuotient(data: bv32): bv32 {
    data ^ (data >> 2) ^ (data >> 4)
  }

  lemma BchStepIs(rem: bv32)
    requires rem < 0x400
    ensures BchStep(rem) == (rem << 1) ^ (if rem & 0x200 != 0 then 0x537 else 0) && BchStep(rem) < 0x400
  {}

  lemma BchFive(data: bv32)
    requires data < 0x20
    ensures BchRemainder(data, 5) == data << 5
  {
    hide BchStep;
    BchStepIs(data);
    BchStepIs(data << 1);
    BchStepIs(data << 2);
    BchStepIs(data << 3);
    BchStepIs(data << 4);
    BchMore(data, 0);
    BchMore(data, 1);
    BchMore(data, 2);
    BchMore(data, 3);
    BchMore(data, 4);
  }

  lemma BchMore(data: bv32, i: nat)
    ensures BchRemainder(data, 0) == data
    ensures BchRemainder(data, i + 1) == BchStep(BchRemainder(data, i))
  {
    hide BchStep;
  }

  function BchReduced(rem: bv32): bv32 {
    (rem << 1) ^ (if rem & 0x200 != 0 then 0x537 else 0)
  }

  lemma BchTen(data: bv32)
    requires data < 0x20
    ensures BchRemainder(data, 10) == BchReduced(BchReduced(BchReduced(BchReduced(BchReduced(data << 5)))))
  {
    BchFive(data);
    var a := data << 5;
    BchLast(data, a);
  }

  lemma BchLast(data: bv32, a: bv32)
    requires BchRemainder(data, 5) == a && a < 0x400
    ensures BchRemainder(data, 10) == BchReduced(BchReduced(BchReduced(BchReduced(BchReduced(a)))))
  {
    hide *;
    BchReducedStep(a);
    var b := BchReduced(a);
    BchReducedStep(b);
    var c := BchReduced(b);
    BchReducedStep(c);
    var d := BchReduced(c);
    BchReducedStep(d);
    var e := BchReduced(d);
    BchReducedStep(e);
    BchMore(data, 5);
    BchMore(data, 6);
    BchMore(data, 7);
    BchMore(data, 8);
    BchMore(data, 9);
  }

  lemma BchReducedStep(rem: bv32)
    requires rem < 0x400
    ensures BchStep(rem) == BchReduced(rem) && BchReduced(rem) < 0x400
  {
    BchStepIs(rem);
    hide BchStep;
  }

  lemma FormatProduct(data: bv32)
    requires data < 0x20
    ensures (data << 10) | BchRemainder(data, 10) == CarrylessProduct(FormatQuotient(data), 0x537)
    ensures FormatQuotient(data) < 0x20
  {
    BchTen(data);
    hide BchRemainder;
  }

  /** The multiple of 0x537, with the roles of the factors exchanged. */
  function FormatMultiple(q: bv32): bv32 {
    (q << 10) ^ (q << 8) ^ (q << 5) ^ (q << 4) ^ (q << 2) ^ (q << 1) ^ q
  }

  lemma FormatMultipleIs(q: bv32)
    requires q < 0x20
    ensures CarrylessProduct(q, 0x537) == FormatMultiple(q)
  {}

  lemma FormatMultiplesFar(p: bv32, q: bv32)
    requires p < 0x20 && q < 0x20 && p != q
    ensures BitDistance(FormatMultiple(p), FormatMultiple(q)) >= 7
  {}

  lemma FormatQuotientsDiffer(p: bv32, q: bv32)
    requires p < 0x20 && q < 0x20 && p != q
    ensures FormatQuotient(p) < 0x20 && FormatQuotient(q) < 0x20 && FormatQuotient(p) != FormatQuotient(q)
  {}

  lemma FormatFar(p: bv32, q: bv32)
    requires p < 0x20 && q < 0x20 && p != q
    ensures BitDistance(CarrylessProduct(FormatQuotient(p), 0x537), CarrylessProduct(FormatQuotient(q), 0x537)) >= 7
  {
    FormatQuotientsDiffer(p, q);
    hide *;
    FormatMultipleIs(FormatQuotient(p));
    FormatMultipleIs(FormatQuotient(q));
    FormatMultiplesFar(FormatQuotient(p), FormatQuotient(q));
  }

  /** The five data bits of a level and a mask. */
  function FormatData(ecl: Ecc, msk: nat): bv32
    requires msk < 8
  {
    (FormatCode(ecl) << 3) | (msk as bv32)
  }

  function MaskBits(msk: nat): (b: bv32)
    requires msk < 8
  {
    match msk
    case 0 => 0 case 1 => 1 case 2 => 2 case 3 => 3 case 4 => 4 case 5 => 5 case 6 => 6 case 7 => 7
  }

  lemma FormatDataIs(ecl: Ecc, msk: nat)
    requires msk < 8
    ensures FormatData(ecl, msk) == (FormatCode(ecl) << 3) | MaskBits(msk) && FormatData(ecl, msk) < 0x20
  {
    match msk
    case 0 => assert (msk as bv32) == 0;
    case 1 => assert (msk as bv32) == 1;
    case 2 => assert (msk as bv32) == 2;
    case 3 => assert (msk as bv32) == 3;
    case 4 => assert (msk as bv32) == 4;
    case 5 => assert (msk as bv32) == 5;
    case 6 => assert (msk as bv32) == 6;
    case 7 => assert (msk as bv32) == 7;
  }

  lemma CodesDiffer(c: bv32, d: bv32, m: bv32, n: bv32)
    requires c < 4 && d < 4 && m < 8 && n < 8 && (c << 3) | m == (d << 3) | n
    ensures c == d && m == n
  {}

  lemma SameData(e: Ecc, m: nat, f: Ecc, n: nat)
    requires m < 8 && n < 8 && FormatData(e, m) == FormatData(f, n)
    ensures e == f && m == n
  {
    FormatDataIs(e, m);
    FormatDataIs(f, n);
    hide *;
    CodesOfLevels(e, f);
    CodesOfLevels(f, e);
    BitsOfMasks(m, n);
    BitsOfMasks(n, m);
    CodesDiffer(FormatCode(e), FormatCode(f), MaskBits(m), MaskBits(n));
  }

  lemma CodesOfLevels(e: Ecc, f: Ecc)
    ensures FormatCode(e) < 4 && (FormatCode(e) == FormatCode(f) ==> e == f)
  {}

  lemma BitsOfMasks(m: nat, n: nat)
    requires m < 8 && n < 8
    ensures MaskBits(m) < 8 && (MaskBits(m) == MaskBits(n) ==> m == n)
  {}

  lemma FormatWordForm(ecl: Ecc, msk: nat)
    requires msk < 8
    ensures FormatWord(ecl, msk) == WithFormatMask(CarrylessProduct(FormatQuotient(FormatData(ecl, msk)), 0x537))
    ensures FormatQuotient(FormatData(ecl, msk)) < 0x20 && FormatData(ecl, msk) < 0x20
  {
    FormatDataIs(ecl, msk);
    FormatProduct(FormatData(ecl, msk));
    hide BchRemainder, FormatCode, CarrylessProduct, FormatQuotient;
  }

  function WithFormatMask(w: bv32): bv32 {
    w ^ 0x5412
  }

  lemma FormatMaskKeeps(a: bv32, b: bv32)
    ensures WithFormatMask(WithFormatMask(a)) == a
    ensures BitDistance(WithFormatMask(a), WithFormatMask(b)) == BitDistance(a, b)
  {
    MaskCancels(a, b);
    hide Ones;
  }

  lemma MaskCancels(a: bv32, b: bv32)
    ensures (a ^ 0x5412) ^ (b ^ 0x5412) == a ^ b && (a ^ 0x5412) ^ 0x5412 == a
  {}

  /** Unmasked, a format word is a multiple of the generator 0x537, and the words of different levels or masks differ
      in at least 7 bits, so that up to three damaged bits can be corrected. */
  lemma FormatWordsFar(e: Ecc, m: nat, f: Ecc, n: nat)
    requires m < 8 && n < 8
    ensures IsMultiple(WithFormatMask(FormatWord(e, m)), 0x537, 0x20)
    ensures e != f || m != n ==> BitDistance(FormatWord(e, m), FormatWord(f, n)) >= 7
  {
    hide *;
    FormatWordForm(e, m);
    FormatWordForm(f, n);
    var p, q := FormatData(e, m), FormatData(f, n);
    FormatMaskKeeps(CarrylessProduct(FormatQuotient(p), 0x537), CarrylessProduct(FormatQuotient(q), 0x537));
    MultipleIntro(FormatQuotient(p), 0x537, 0x20);
    if p == q {
      SameData(e, m, f, n);
    } else {
      FormatFar(p, q);
    }
  }

  /** The words of the four levels for mask 0, in the order of the standard's table of format information. */
  lemma FormatWordsOfLevels()
    ensures FormatWord(LOW, 0) == 0x77C4 && FormatWord(MEDIUM, 0) == 0x5412
    ensures FormatWord(QUARTILE, 0) == 0x355F && FormatWord(HIGH, 0) == 0x1689
  {
    FormatWordForm(LOW, 0);
    FormatWordForm(MEDIUM, 0);
    FormatWordForm(QUARTILE, 0);
    FormatWordForm(HIGH, 0);
    FormatDataIs(LOW, 0);
    FormatDataIs(MEDIUM, 0);
    FormatDataIs(QUARTILE, 0);
    FormatDataIs(HIGH, 0);
    hide FormatWord, FormatData;
  }

  /** The word of level M and mask 5, which the standard works out as its example. */
  lemma FormatWordExample()
    ensures FormatWord(MEDIUM, 5) == 0x40CE
  {
    FormatWordForm(MEDIUM, 5);
    FormatDataIs(MEDIUM, 5);
    hide FormatWord, FormatData;
  }

  // ---------- Version words ----------

  function VersionQuotient(data: bv32): bv32 {
    data ^ (data >> 1) ^ (data >> 5)
  }

  function GolayReduced(rem: bv32): bv32 {
    (rem << 1) ^ (if rem & 0x800 != 0 then 0x1F25 else 0)
  }

  lemma GolayReducedStep(rem: bv32)
    requires rem < 0x1000
    ensures GolayStep(rem) == GolayReduced(rem) && GolayReduced(rem) < 0x1000
  {}

  lemma GolayMore(data: bv32, i: nat)
    ensures GolayRemainder(data, 0) == data
    ensures GolayRemainder(data, i + 1) == GolayStep(GolayRemainder(data, i))
  {
    hide GolayStep;
  }

  lemma ShiftedDown(data: bv32)
    requires data < 0x40
    ensures GolayReduced(data) == data << 1 && GolayReduced(data << 1) == data << 2
    ensures GolayReduced(data << 2) == data << 3 && GolayReduced(data << 3) == data << 4
    ensures GolayReduced(data << 4) == data << 5 && GolayReduced(data << 5) == data << 6 && data << 6 < 0x1000
  {}

  lemma GolaySix(data: bv32)
    requires data < 0x40
    ensures GolayRemainder(data, 6) == data << 6 && data << 6 < 0x1000
  {
    ShiftedDown(data);
    Small(data);
    hide *;
    GolayReducedStep(data);
    GolayReducedStep(data << 1);
    GolayReducedStep(data << 2);
    GolayReducedStep(data << 3);
    GolayReducedStep(data << 4);
    GolayReducedStep(data << 5);
    GolayMore(data, 0);
    GolayMore(data, 1);
    GolayMore(data, 2);
    GolayMore(data, 3);
    GolayMore(data, 4);
    GolayMore(data, 5);
  }

  lemma Small(data: bv32)
    requires data < 0x40
    ensures data << 1 < 0x1000 && data << 2 < 0x1000 && data << 3 < 0x1000 && data << 4 < 0x1000 && data << 5 < 0x1000
  {}

  lemma GolayTwelve(data: bv32, a: bv32)
    requires GolayRemainder(data, 6) == a && a < 0x1000
    ensures GolayRemainder(data, 12) ==
      GolayReduced(GolayReduced(GolayReduced(GolayReduced(GolayReduced(GolayReduced(a))))))
  {
    hide *;
    GolayReducedStep(a);
    var b := GolayReduced(a);
    GolayReducedStep(b);
    var c := GolayReduced(b);
    GolayReducedStep(c);
    var d := GolayReduced(c);
    GolayReducedStep(d);
    var e := GolayReduced(d);
    GolayReducedStep(e);
    var f := GolayReduced(e);
    GolayReducedStep(f);
    GolayMore(data, 6);
    GolayMore(data, 7);
    GolayMore(data, 8);
    GolayMore(data, 9);
    GolayMore(data, 10);
    GolayMore(data, 11);
  }

  lemma VersionReduced(data: bv32)
    requires data < 0x40
    ensures WithRemainder(data,
        GolayReduced(GolayReduced(GolayReduced(GolayReduced(GolayReduced(GolayReduced(data << 6)))))))
      == CarrylessProduct(VersionQuotient(data), 0x1F25)
    ensures VersionQuotient(data) < 0x40
  {}

  lemma VersionProduct(data: bv32)
    requires data < 0x40
    ensures WithRemainder(data, GolayRemainder(data, 12)) == CarrylessProduct(VersionQuotient(data), 0x1F25)
    ensures VersionQuotient(data) < 0x40
  {
    hide *;
    GolaySix(data);
    GolayTwelve(data, data << 6);
    VersionReduced(data);
  }

  /** The multiple of 0x1F25, with the roles of the factors exchanged. */
  function VersionMultiple(q: bv32): bv32 {
    (q << 12) ^ (q << 11) ^ (q << 10) ^ (q << 9) ^ (q << 8) ^ (q << 5) ^ (q << 2) ^ q
  }

  lemma VersionMultipleIs(q: bv32)
    requires q < 0x40
    ensures CarrylessProduct(q, 0x1F25) == VersionMultiple(q)
  {}

  lemma LowMultiplesFar(p: bv32, q: bv32)
    requires p < 0x20 && q < 0x20 && p != q
    ensures BitDistance(VersionMultiple(p), VersionMultiple(q)) >= 8
  {}

  lemma MixedMultiplesFar(p: bv32, q: bv32)
    requires p < 0x20 <= q < 0x40
    ensures BitDistance(VersionMultiple(p), VersionMultiple(q)) >= 8
  {}

  lemma HighMultiplesFar(p: bv32, q: bv32)
    requires 0x20 <= p < 0x40 && 0x20 <= q < 0x40 && p != q
    ensures BitDistance(VersionMultiple(p), VersionMultiple(q)) >= 8
  {}

  lemma VersionMultiplesFar(p: bv32, q: bv32)
    requires p < 0x40 && q < 0x40 && p != q
    ensures BitDistance(VersionMultiple(p), VersionMultiple(q)) >= 8
  {
    hide *;
    if p < 0x20 && q < 0x20 {
      LowMultiplesFar(p, q);
    } else if p < 0x20 {
      MixedMultiplesFar(p, q);
    } else if q < 0x20 {
      MixedMultiplesFar(q, p);
      DistanceSymmetric(VersionMultiple(p), VersionMultiple(q));
    } else {
      HighMultiplesFar(p, q);
    }
  }

  lemma VersionQuotientsDiffer(p: bv32, q: bv32)
    requires p < 0x40 && q < 0x40 && p != q
    ensures VersionQuotient(p) < 0x40 && VersionQuotient(q) < 0x40 && VersionQuotient(p) != VersionQuotient(q)
  {}

  lemma VersionFar(p: bv32, q: bv32)
    requires p < 0x40 && q < 0x40 && p != q
    ensures BitDistance(CarrylessProduct(VersionQuotient(p), 0x1F25), CarrylessProduct(VersionQuotient(q), 0x1F25)) >= 8
  {
    VersionQuotientsDiffer(p, q);
    hide *;
    VersionMultipleIs(VersionQuotient(p));
    VersionMultipleIs(VersionQuotient(q));
    VersionMultiplesFar(VersionQuotient(p), VersionQuotient(q));
  }

  lemma VersionDataBelow(ver: int)
    requires 7 <= ver <= 40
    ensures VersionData(ver) < 0x40
  {}

  function NumberOf(data: bv32): int {
    data as int
  }

  lemma NumberOfFirst(ver: int)
    requires 7 <= ver < 16
    ensures NumberOf(VersionData(ver)) == ver
  {}

  lemma NumberOfSecond(ver: int)
    requires 16 <= ver < 24
    ensures NumberOf(VersionData(ver)) == ver
  {}

  lemma NumberOfThird(ver: int)
    requires 24 <= ver < 32
    ensures NumberOf(VersionData(ver)) == ver
  {}

  lemma NumberOfLast(ver: int)
    requires 32 <= ver <= 40
    ensures NumberOf(VersionData(ver)) == ver
  {}

  lemma NumberOfVersion(ver: int)
    requires 7 <= ver <= 40
    ensures NumberOf(VersionData(ver)) == ver
  {
    hide *;
    if ver < 16 {
      NumberOfFirst(ver);
    } else if ver < 24 {
      NumberOfSecond(ver);
    } else if ver < 32 {
      NumberOfThird(ver);
    } else {
      NumberOfLast(ver);
    }
  }

  lemma VersionWordForm(v: int)
    requires 7 <= v <= 40
    ensures VersionWord(v) == CarrylessProduct(VersionQuotient(VersionData(v)), 0x1F25)
    ensures VersionQuotient(VersionData(v)) < 0x40 && VersionData(v) < 0x40
  {
    VersionDataBelow(v);
    VersionProduct(VersionData(v));
    hide GolayRemainder, WithRemainder, VersionData, CarrylessProduct, VersionQuotient;
  }

  /** A version word is a multiple of the generator 0x1F25, and the words of different versions differ in at least 8
      bits. */
  lemma VersionWordsFar(v: int, w: int)
    requires 7 <= v <= 40 && 7 <= w <= 40
    ensures IsMultiple(VersionWord(v), 0x1F25, 0x40)
    ensures v != w ==> BitDistance(VersionWord(v), VersionWord(w)) >= 8
  {
    hide *;
    VersionWordForm(v);
    VersionWordForm(w);
    NumberOfVersion(v);
    NumberOfVersion(w);
    var p, q := VersionData(v), VersionData(w);
    MultipleIntro(VersionQuotient(p), 0x1F25, 0x40);
    if p != q {
      VersionFar(p, q);
    }
  }

  /** The word of version 7, which the standard works out as its example. */
  lemma VersionWordExample()
    ensures VersionWord(7) == 0x07C94
  {
    VersionWordForm(7);
    assert VersionData(7) == 7;
    hide VersionWord, VersionData;
  }
}
