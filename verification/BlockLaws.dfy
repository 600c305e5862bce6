/** How capacities and blocks are ordered. */
module BlockLaws {
  import opened QrTables
  import opened CodewordBlocks

  // ---------- Capacities ----------

  /** The numbers of data codewords in the tables of ISO/IEC 18004. */
  function CapacityLow(ver: int): int {
    match ver
    case 1 => 19 case 2 => 34 case 3 => 55 case 4 => 80 case 5 => 108 case 6 => 136 case 7 => 156 case 8 => 194
    case 9 => 232 case 10 => 274 case 11 => 324 case 12 => 370 case 13 => 428 case 14 => 461 case 15 => 523
    case 16 => 589 case 17 => 647 case 18 => 721 case 19 => 795 case 20 => 861 case 21 => 932 case 22 => 1006
    case 23 => 1094 case 24 => 1174 case 25 => 1276 case 26 => 1370 case 27 => 1468 case 28 => 1531 case 29 => 1631
    case 30 => 1735 case 31 => 1843 case 32 => 1955 case 33 => 2071 case 34 => 2191 case 35 => 2306 case 36 => 2434
    case 37 => 2566 case 38 => 2702 case 39 => 2812 case 40 => 2956
    case _ => 0
  }

  function CapacityMedium(ver: int): int {
    match ver
    case 1 => 16 case 2 => 28 case 3 => 44 case 4 => 64 case 5 => 86 case 6 => 108 case 7 => 124 case 8 => 154
    case 9 => 182 case 10 => 216 case 11 => 254 case 12 => 290 case 13 => 334 case 14 => 365 case 15 => 415
    case 16 => 453 case 17 => 507 case 18 => 563 case 19 => 627 case 20 => 669 case 21 => 714 case 22 => 782
    case 23 => 860 case 24 => 914 case 25 => 1000 case 26 => 1062 case 27 => 1128 case 28 => 1193 case 29 => 1267
    case 30 => 1373 case 31 => 1455 case 32 => 1541 case 33 => 1631 case 34 => 1725 case 35 => 1812 case 36 => 1914
    case 37 => 1992 case 38 => 2102 case 39 => 2216 case 40 => 2334
    case _ => 0
  }

  function CapacityQuartile(ver: int): int {
    match ver
    case 1 => 13 case 2 => 22 case 3 => 34 case 4 => 48 case 5 => 62 case 6 => 76 case 7 => 88 case 8 => 110
    case 9 => 132 case 10 => 154 case 11 => 180 case 12 => 206 case 13 => 244 case 14 => 261 case 15 => 295
    case 16 => 325 case 17 => 367 case 18 => 397 case 19 => 445 case 20 => 485 case 21 => 512 case 22 => 568
    case 23 => 614 case 24 => 664 case 25 => 718 case 26 => 754 case 27 => 808 case 28 => 871 case 29 => 911
    case 30 => 985 case 31 => 1033 case 32 => 1115 case 33 => 1171 case 34 => 1231 case 35 => 1286 case 36 => 1354
    case 37 => 1426 case 38 => 1502 case 39 => 1582 case 40 => 1666
    case _ => 0
  }

  function CapacityHigh(ver: int): int {
    match ver
    case 1 => 9 case 2 => 16 case 3 => 26 case 4 => 36 case 5 => 46 case 6 => 60 case 7 => 66 case 8 => 86
    case 9 => 100 case 10 => 122 case 11 => 140 case 12 => 158 case 13 => 180 case 14 => 197 case 15 => 223
    case 16 => 253 case 17 => 283 case 18 => 313 case 19 => 341 case 20 => 385 case 21 => 406 case 22 => 442
    case 23 => 464 case 24 => 514 case 25 => 538 case 26 => 596 case 27 => 628 case 28 => 661 case 29 => 701
    case 30 => 745 case 31 => 793 case 32 => 845 case 33 => 901 case 34 => 961 case 35 => 986 case 36 => 1054
    case 37 => 1096 case 38 => 1142 case 39 => 1222 case 40 => 1276
    case _ => 0
  }

  function Capacity(ver: int, ecl: Ecc): int {
    match ecl
    case LOW => CapacityLow(ver)
    case MEDIUM => CapacityMedium(ver)
    case QUARTILE => CapacityQuartile(ver)
    case HIGH => CapacityHigh(ver)
  }

  lemma SmallLowIs(ver: int)
    requires 1 <= ver <= 20
    ensures NumDataCodewords(ver, LOW) == CapacityLow(ver)
  {}

  lemma LargeLowIs(ver: int)
    requires 21 <= ver <= 40
    ensures NumDataCodewords(ver, LOW) == CapacityLow(ver)
  {}

  lemma SmallMediumIs(ver: int)
    requires 1 <= ver <= 20
    ensures NumDataCodewords(ver, MEDIUM) == CapacityMedium(ver)
  {}

  lemma LargeMediumIs(ver: int)
    requires 21 <= ver <= 40
    ensures NumDataCodewords(ver, MEDIUM) == CapacityMedium(ver)
  {}

  lemma SmallQuartileIs(ver: int)
    requires 1 <= ver <= 20
    ensures NumDataCodewords(ver, QUARTILE) == CapacityQuartile(ver)
  {}

  lemma LargeQuartileIs(ver: int)
    requires 21 <= ver <= 40
    ensures NumDataCodewords(ver, QUARTILE) == CapacityQuartile(ver)
  {}

  lemma SmallHighIs(ver: int)
    requires 1 <= ver <= 20
    ensures NumDataCodewords(ver, HIGH) == CapacityHigh(ver)
  {}

  lemma LargeHighIs(ver: int)
    requires 21 <= ver <= 40
    ensures NumDataCodewords(ver, HIGH) == CapacityHigh(ver)
  {}

  /** The capacities that result from the block tables are those of the standard. */
  lemma CapacityIs(ver: int, ecl: Ecc)
    requires IsVersion(ver)
    ensures NumDataCodewords(ver, ecl) == Capacity(ver, ecl)
  {
    hide NumDataCodewords, CapacityLow, CapacityMedium, CapacityQuartile, CapacityHigh;
    match ecl
    case LOW =>
      if ver <= 20 { SmallLowIs(ver); } else { LargeLowIs(ver); }
    case MEDIUM =>
      if ver <= 20 { SmallMediumIs(ver); } else { LargeMediumIs(ver); }
    case QUARTILE =>
      if ver <= 20 { SmallQuartileIs(ver); } else { LargeQuartileIs(ver); }
    case HIGH =>
      if ver <= 20 { SmallHighIs(ver); } else { LargeHighIs(ver); }
  }

  lemma NextLarger(ver: int)
    requires 1 <= ver < 40
    ensures CapacityLow(ver) < CapacityLow(ver + 1) && CapacityMedium(ver) < CapacityMedium(ver + 1)
    ensures CapacityQuartile(ver) < CapacityQuartile(ver + 1) && CapacityHigh(ver) < CapacityHigh(ver + 1)
  {}

  lemma StrongerSmaller(ver: int)
    requires 1 <= ver <= 40
    ensures CapacityLow(ver) > CapacityMedium(ver) > CapacityQuartile(ver) > CapacityHigh(ver)
  {}

  /** A larger version holds more at the same level, and a stronger level less in the same version. */
  lemma CapacityOrdered(ver: int, ecl: Ecc, weaker: Ecc)
    requires IsVersion(ver)
    ensures ver < 40 ==> NumDataCodewords(ver, ecl) < NumDataCodewords(ver + 1, ecl)
    ensures Rank(weaker) < Rank(ecl) ==> NumDataCodewords(ver, ecl) < NumDataCodewords(ver, weaker)
  {
    CapacityIs(ver, ecl);
    CapacityIs(ver, weaker);
    StrongerSmaller(ver);
    if ver < 40 {
      CapacityIs(ver + 1, ecl);
      NextLarger(ver);
    }
    hide NumDataCodewords, CapacityLow, CapacityMedium, CapacityQuartile, CapacityHigh;
  }

  // ---------- Blocks ----------

  /** Short blocks come first, and a long one has one byte more. */
  lemma BlockSizes(lay: Layout, j: nat, k: nat)
    requires lay.Valid() && j <= k
    ensures lay.DataLen(j) <= lay.DataLen(k) <= lay.DataLen(j) + 1
    ensures lay.DataStart(0) == 0 && lay.DataStart(j + 1) == lay.DataStart(j) + lay.DataLen(j)
  {}

  /** Where the byte number `i` of block `j` is, counting the padding byte of a short block. */
  function Place(lay: Layout, i: nat, j: nat): nat
    requires !lay.Skipped(i, j)
  {
    lay.RowStart(i) + lay.Column(i, j)
  }

  /** Bytes with a lower number come first, and among those with the same number that of the earlier block; as there are
      no more places than bytes, this fixes the order. */
  lemma PlacesOrdered(lay: Layout, i: nat, j: nat, i': nat, j': nat)
    requires lay.Valid() && j < lay.numBlocks && j' < lay.numBlocks && i' < lay.Width()
    requires !lay.Skipped(i, j) && !lay.Skipped(i', j')
    requires i < i' || (i == i' && j < j')
    ensures Place(lay, i, j) < Place(lay, i', j') < lay.RowStart(lay.Width())
    ensures lay.RowStart(lay.Width()) == lay.Width() * lay.numBlocks - lay.numShort
  {
    RowStartClosed(lay, lay.Width());
    RowStartMonotone(lay, i' + 1, lay.Width());
    if i < i' {
      RowStartMonotone(lay, i + 1, i');
    }
  }
}
