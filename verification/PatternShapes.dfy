/** What the drawn patterns look like: profiles, positions, and the order of the format and version bits. */
module PatternShapes {
  import opened Common
  import opened QrTables
  import opened ZigzagScan
  import opened Penalty
  import opened PenaltyLaws
  import opened QrGrid
  import opened FunctionPatterns

  // ---------- Finder, alignment and timing patterns ----------

  /** The modules of a pattern from `k` modules before to `k` modules behind its centre, along a row or a column. */
  function Profile(p: Pattern, size: int, px: int, py: int, k: nat, across: bool): (s: seq<bool>)
    ensures |s| == 2 * k + 1
  {
    seq(2 * k + 1, i requires 0 <= i < 2 * k + 1 =>
      ShowsDark(p, size, if across then Cell(px - k + i, py) else Cell(px, py - k + i)))
  }

  /** Through its centre a finder pattern shows the profile that the penalty looks for, once in each direction; off the
      centre lines each module is that of the line at its larger distance. */
  lemma FinderProfile(px: int, py: int, size: int, across: bool, c: Cell)
    ensures Profile(Finder(px, py), size, px, py, 4, across) == FinderLine(1, 1, 1)
    ensures Covers(Finder(px, py), size, c) <==> Abs(c.x - px) <= 4 && Abs(c.y - py) <= 4
    ensures ShowsDark(Finder(px, py), size, c) ==
      ShowsDark(Finder(px, py), size, if Abs(c.x - px) > Abs(c.y - py) then Cell(c.x, py) else Cell(px, c.y))
  {
    var s := Profile(Finder(px, py), size, px, py, 4, across);
    FinderLineIs();
    forall i | 0 <= i < 9
      ensures s[i] == FinderLine(1, 1, 1)[i]
    {
      assert s[i] == ShowsDark(Finder(px, py), size, if across then Cell(px - 4 + i, py) else Cell(px, py - 4 + i));
      hide FinderLine;
    }
  }

  lemma FinderLineIs()
    ensures FinderLine(1, 1, 1) == [false, true, false, true, true, true, false, true, false]
  {}

  /** The same for an alignment pattern. */
  lemma AlignmentProfile(px: int, py: int, size: int, across: bool, c: Cell)
    ensures Profile(Alignment(px, py), size, px, py, 2, across) == [true, false, true, false, true]
    ensures Covers(Alignment(px, py), size, c) <==> Abs(c.x - px) <= 2 && Abs(c.y - py) <= 2
    ensures ShowsDark(Alignment(px, py), size, c) ==
      ShowsDark(Alignment(px, py), size, if Abs(c.x - px) > Abs(c.y - py) then Cell(c.x, py) else Cell(px, c.y))
  {
    var s := Profile(Alignment(px, py), size, px, py, 2, across);
    forall i | 0 <= i < 5
      ensures s[i] == [true, false, true, false, true][i]
    {
      assert s[i] == ShowsDark(Alignment(px, py), size, if across then Cell(px - 2 + i, py) else Cell(px, py - 2 + i));
    }
  }

  /** Between the finder patterns both timing lines alternate, and begin and end with a dark module. */
  lemma TimingAlternates(size: int, k: int)
    requires IsSize(size) && 8 <= k <= size - 9
    ensures ShowsDark(Timing, size, Cell(6, 8)) && ShowsDark(Timing, size, Cell(6, size - 9))
    ensures k < size - 9 ==> ShowsDark(Timing, size, Cell(6, k)) != ShowsDark(Timing, size, Cell(6, k + 1))
    ensures ShowsDark(Timing, size, Cell(k, 6)) == ShowsDark(Timing, size, Cell(6, k))
  {}

  lemma StepReaches(ver: int, gaps: int, q: int)
    requires 0 < gaps && q == (4 * ver + 2 * gaps + 3) / (2 * gaps)
    ensures (2 * q - 2) * gaps < 4 * ver + 4 <= 2 * q * gaps
  {
    var n, r := 4 * ver + 2 * gaps + 3, (4 * ver + 2 * gaps + 3) % (2 * gaps);
    assert n == q * (2 * gaps) + r && q * (2 * gaps) == 2 * q * gaps && (2 * q - 2) * gaps == 2 * q * gaps - 2 * gaps;
    assert 2 * q * gaps == 2 * (q * gaps);
  }

  /** The alignment patterns lie evenly: from the last one back they keep the least even step that reaches the first,
      but for version 32. */
  lemma AlignStepLeast(ver: int)
    requires IsVersion(ver) && ver >= 2
    ensures var span, gaps, step := SizeOf(ver) - 13, NumAlign(ver) - 1, AlignStep(ver);
      && step % 2 == 0 && (ver == 32 ==> step == 26)
      && (ver != 32 ==> (step - 2) * gaps < span <= step * gaps)
  {
    var gaps := NumAlign(ver) - 1;
    var q := (4 * ver + 2 * gaps + 3) / (2 * gaps);
    StepReaches(ver, gaps, q);
    StepIs(ver, gaps, q);
    assert SizeOf(ver) - 13 == 4 * ver + 4;
    hide *;
  }

  lemma StepIs(ver: int, gaps: int, q: int)
    requires IsVersion(ver) && ver >= 2 && gaps == NumAlign(ver) - 1 && q == (4 * ver + 2 * gaps + 3) / (2 * gaps)
    ensures AlignStep(ver) == if ver == 32 then 26 else 2 * q
  {
    assert ver * 4 + NumAlign(ver) * 2 + 1 == 4 * ver + 2 * gaps + 3 && NumAlign(ver) * 2 - 2 == 2 * gaps;
  }

  // ---------- Format and version bits ----------

  /** The first copy of the format bits takes the modules of column 8 and row 8 around the upper left finder pattern,
      without those of the timing lines, in the order of x - y. */
  lemma FirstCopyPath(c: Cell, i: nat, j: nat)
    requires i < j < 15
    ensures (exists k: nat :: k < 15 && FirstCell(k) == c) <==>
      ((c.x == 8 && 0 <= c.y <= 8) || (c.y == 8 && 0 <= c.x <= 8)) && c.x != 6 && c.y != 6
    ensures FirstCell(i).x - FirstCell(i).y > FirstCell(j).x - FirstCell(j).y
  {
    if ((c.x == 8 && 0 <= c.y <= 8) || (c.y == 8 && 0 <= c.x <= 8)) && c.x != 6 && c.y != 6 {
      var k := FirstIndex(c);
      assert FirstCell(k) == c;
    }
  }

  /** The second copy takes the last eight modules of row 8 and the last seven of column 8, in the order of x - y again;
      the module above them is always dark. */
  lemma SecondCopyPath(size: nat, c: Cell, i: nat, j: nat)
    requires 21 <= size && i < j < 15
    ensures (exists k: nat :: k < 15 && SecondCell(size, k) == c) <==>
      (c.y == 8 && size - 8 <= c.x < size) || (c.x == 8 && size - 7 <= c.y < size)
    ensures SecondCell(size, i).x - SecondCell(size, i).y > SecondCell(size, j).x - SecondCell(size, j).y
    ensures SecondCell(size, 15) == Cell(8, size - 8)
  {
    SecondIndexIs(size);
    if (c.y == 8 && size - 8 <= c.x < size) || (c.x == 8 && size - 7 <= c.y < size) {
      var k := SecondIndex(size, c);
      assert SecondCell(size, k) == c;
    }
  }

  /** Both copies show the format bits. */
  lemma CopiesShown(g: Grid, bits: seq<bool>, i: nat)
    requires Square(g) && 21 <= |g| && |bits| == 16 && i < 16
    ensures i < 15 ==> InGrid(g, FirstCell(i)) && At(WithFormat(g, bits), FirstCell(i)) == bits[i]
    ensures InGrid(g, SecondCell(|g|, i)) && At(WithFormat(g, bits), SecondCell(|g|, i)) == bits[i]
  {
    PartFormatAt(g, bits, 15, 16);
    SecondIndexIs(|g|);
    hide PartFormat, At;
  }

  /** The version bits go row by row into the block of six rows and three columns beside the upper right finder pattern,
      and into its mirror image. */
  lemma VersionBlocks(ver: int, i: nat, c: Cell)
    requires 7 <= ver <= 40 && i < 18
    ensures var size := SizeOf(ver);
      && ShowsDark(VersionInfo(ver), size, Cell(size - 11 + i % 3, i / 3)) == VersionBit(ver, i)
      && ShowsDark(VersionInfo(ver), size, Cell(i / 3, size - 11 + i % 3)) == VersionBit(ver, i)
      && Covers(VersionInfo(ver), size, Cell(size - 11 + i % 3, i / 3))
      && Covers(VersionInfo(ver), size, Cell(i / 3, size - 11 + i % 3))
    ensures var size := SizeOf(ver);
      Covers(VersionInfo(ver), size, c) <==>
        exists k: nat :: k < 18 && (c == Cell(size - 11 + k % 3, k / 3) || c == Cell(k / 3, size - 11 + k % 3))
  {
    hide VersionBit;
    var size := SizeOf(ver);
    if size - 11 <= c.x <= size - 9 && 0 <= c.y <= 5 {
      InBlock(c.x - (size - 11), c.y);
      assert c == Cell(size - 11 + (3 * c.y + c.x - (size - 11)) % 3, (3 * c.y + c.x - (size - 11)) / 3);
    }
    if size - 11 <= c.y <= size - 9 && 0 <= c.x <= 5 {
      InBlock(c.y - (size - 11), c.x);
      assert c == Cell((3 * c.x + c.y - (size - 11)) / 3, size - 11 + (3 * c.x + c.y - (size - 11)) % 3);
    }
  }

  lemma InBlock(a: int, b: int)
    requires 0 <= a < 3 && 0 <= b
    ensures (3 * b + a) / 3 == b && (3 * b + a) % 3 == a
  {}

  function Weight(word: bv32, i: nat): bv32
    requires i < 32
  {
    if GetBit(word, i) then (1 as bv32) << i else 0
  }

  function ThreeBits(word: bv32, i: nat): bv32
    requires i + 2 < 32
  {
    Weight(word, i) | Weight(word, i + 1) | Weight(word, i + 2)
  }

  lemma LowestBits(word: bv32)
    ensures ThreeBits(word, 0) == word & 0x7 && ThreeBits(word, 3) == word & 0x38
  {}

  lemma MiddleBits(word: bv32)
    ensures ThreeBits(word, 6) == word & 0x1C0
  {}

  lemma UpperBits(word: bv32)
    ensures ThreeBits(word, 9) == word & 0xE00
  {}

  lemma HighBits(word: bv32)
    ensures ThreeBits(word, 12) == word & 0x7000
  {}

  lemma HighestBits(word: bv32)
    ensures ThreeBits(word, 15) == word & 0x38000
  {}

  /** The bits of a word make up the word, bit i with the weight 1 << i. */
  lemma WordOfBits(word: bv32)
    requires word < 0x40000
    ensures word == ThreeBits(word, 0) | ThreeBits(word, 3) | ThreeBits(word, 6) | ThreeBits(word, 9)
                    | ThreeBits(word, 12) | ThreeBits(word, 15)
  {
    LowestBits(word);
    MiddleBits(word);
    UpperBits(word);
    HighBits(word);
    HighestBits(word);
    hide ThreeBits;
  }
}
