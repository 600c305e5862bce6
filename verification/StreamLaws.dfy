/** The data bit stream told by the standard: bit order, values, widths and worked examples. */
module StreamLaws {
  import opened Common
  import opened Wrappers
  import opened Bits
  import opened Galois
  import opened QrTables
  import opened Segments
  import opened SymbolEncoder
  import opened SymbolReader

  // ---------- Bit order ----------

  lemma HalfThenMore(v: nat, p: nat)
    requires p > 0
    ensures v / 2 / p == v / (2 * p)
  {
    var q, r := v / (2 * p), v % (2 * p);
    assert v == q * (2 * p) + r;
    assert v == 2 * (q * p) + r;
    assert v / 2 == q * p + r / 2 && r / 2 < p;
    QuotientOf(q, p, r / 2);
  }

  lemma QuotientOf(q: nat, p: nat, r: nat)
    requires r < p
    ensures (q * p + r) / p == q
  {
    var k := (q * p + r) / p;
    if k < q {
      MulMonotone(k + 1, q, p);
    } else if k > q {
      MulMonotone(q + 1, k, p);
    }
  }

  /** The first bit is the most significant one: bit k counts 2 to the power of len - 1 - k. */
  lemma {:induction false} BitAt(v: nat, len: nat, k: nat)
    requires k < len
    ensures ToBits(v, len)[k] <==> v / Pow2(len - 1 - k) % 2 == 1
  {
    if k < len - 1 {
      BitAt(v / 2, len - 1, k);
      HalfThenMore(v, Pow2(len - 2 - k));
    }
  }

  // ---------- Digits and characters ----------

  lemma {:induction false} StrChrFirst(s: string, c: char, k: nat)
    requires k < |s| && s[k] == c && forall j :: 0 <= j < k ==> s[j] != c
    ensures StrChr(s, c) == Some(k)
  {
    if k > 0 {
      StrChrFirst(s[1..], c, k - 1);
    }
  }

  const LETTERS := "ABCDEFGHIJKLMNOPQRSTUVWXYZ"

  lemma LettersAt(k: nat)
    requires k < 26
    ensures LETTERS[k] as int == 'A' as int + k
  {}

  lemma DigitsAt(k: nat)
    requires k < 10
    ensures "0123456789"[k] as int == '0' as int + k
  {}

  lemma CharsetParts()
    ensures ALPHANUMERIC_CHARSET == "0123456789" + LETTERS + " $%*+-./:"
  {}

  /** The character of each value: digits, letters, and nine others in increasing order. */
  lemma CharsetAt(k: nat)
    requires k < 45
    ensures |ALPHANUMERIC_CHARSET| == 45
    ensures k < 10 ==> ALPHANUMERIC_CHARSET[k] as int == '0' as int + k
    ensures 10 <= k < 36 ==> ALPHANUMERIC_CHARSET[k] as int == 'A' as int + (k - 10)
    ensures k >= 36 ==> ALPHANUMERIC_CHARSET[k] == " $%*+-./:"[k - 36]
  {
    CharsetParts();
    if k < 10 {
      DigitsAt(k);
    } else if k < 36 {
      LettersAt(k - 10);
    }
  }

  lemma OthersAt(k: nat, c: char)
    requires k < 9 && " $%*+-./:"[k] == c
    ensures !IsDigit(c) && !('A' <= c <= 'Z')
    ensures forall j :: 0 <= j < k ==> " $%*+-./:"[j] < c
  {}

  lemma CharsetDistinct(j: nat, k: nat)
    requires j < k < 45
    ensures |ALPHANUMERIC_CHARSET| == 45 && ALPHANUMERIC_CHARSET[j] != ALPHANUMERIC_CHARSET[k]
  {
    CharsetAt(j);
    CharsetAt(k);
    if k >= 36 {
      OthersAt(k - 36, ALPHANUMERIC_CHARSET[k]);
    }
    hide *;
  }

  lemma IndexAt(k: nat)
    requires k < 45
    ensures |ALPHANUMERIC_CHARSET| == 45 && CharsetIndex(ALPHANUMERIC_CHARSET[k]) == Some(k)
  {
    CharsetAt(k);
    forall j | 0 <= j < k
      ensures ALPHANUMERIC_CHARSET[j] != ALPHANUMERIC_CHARSET[k]
    {
      CharsetDistinct(j, k);
    }
    StrChrFirst(ALPHANUMERIC_CHARSET, ALPHANUMERIC_CHARSET[k], k);
  }

  /** Digits have their own value, letters follow from 10 on, and nine other characters from 36 on; no other character
      has a value. */
  lemma CharsetValues(c: char)
    ensures IsDigit(c) ==> CharsetIndex(c) == Some(c as int - '0' as int) && DigitValue(c) == c as int - '0' as int
    ensures 'A' <= c <= 'Z' ==> CharsetIndex(c) == Some(10 + (c as int - 'A' as int))
    ensures forall k :: 0 <= k < 9 && c == " $%*+-./:"[k] ==> CharsetIndex(c) == Some(36 + k)
    ensures CharsetIndex(c).Some? <==> IsDigit(c) || 'A' <= c <= 'Z' || c in " $%*+-./:"
  {
    hide CharsetIndex;
    if IsDigit(c) {
      IndexAt(c as int - '0' as int);
      CharsetAt(c as int - '0' as int);
    }
    if 'A' <= c <= 'Z' {
      IndexAt(10 + (c as int - 'A' as int));
      CharsetAt(10 + (c as int - 'A' as int));
    }
    forall k | 0 <= k < 9 && c == " $%*+-./:"[k]
      ensures CharsetIndex(c) == Some(36 + k)
    {
      IndexAt(36 + k);
      CharsetAt(36 + k);
    }
    if CharsetIndex(c).Some? {
      CharAtIndex(c);
      CharsetAt(CharsetIndex(c).value);
    }
  }

  // ---------- Widths ----------

  /** Ten bits for three digits, rounded up; eleven for two characters, rounded up. */
  lemma LengthsAre(n: nat)
    ensures NumericLength(n) == (10 * n + 2) / 3
    ensures AlphanumericLength(n) == (11 * n + 1) / 2
  {
    var q, r := n / 3, n % 3;
    assert n == 3 * q + r;
    assert (10 * n + 2) / 3 == 10 * q + (10 * r + 2) / 3;
    var h := n / 2;
    assert n == 2 * h + n % 2;
  }

  /** The standard's table of count field widths. */
  lemma CountWidths(ver: int)
    requires IsVersion(ver)
    ensures NUMERIC.NumCharCountBits(ver) == if ver <= 9 then 10 else if ver <= 26 then 12 else 14
    ensures ALPHANUMERIC.NumCharCountBits(ver) == if ver <= 9 then 9 else if ver <= 26 then 11 else 13
    ensures BYTE.NumCharCountBits(ver) == if ver <= 9 then 8 else 16
    ensures KANJI.NumCharCountBits(ver) == if ver <= 9 then 8 else if ver <= 26 then 10 else 12
    ensures ECI.NumCharCountBits(ver) == 0
  {}

  /** A designator takes the least number of bytes that hold it with seven bits each. */
  lemma EciBytes(v: nat)
    requires v < 1_000_000
    ensures var k := |EciBits(v)| / 8;
      1 <= k <= 3 && |EciBits(v)| == 8 * k && v < Pow2(7 * k) && (k > 1 ==> v >= Pow2(7 * (k - 1)))
  {
    SmallPowers();
    hide Pow2, ToBits;
  }

  /** Byte k of the data, most significant bit first. */
  lemma {:induction false} ByteBitsAt(data: seq<Byte>, k: nat, j: nat)
    requires k < |data| && j < 8
    ensures ByteBits(data)[8 * k + j] <==> data[k] / Pow2(7 - j) % 2 == 1
  {
    BitAt(data[0], 8, j);
    hide ToBits, Pow2;
    if k > 0 {
      ByteBitsAt(data[1..], k - 1, j);
    }
  }

  // ---------- Padding ----------

  lemma {:induction false} ZerosJoin(m: nat, n: nat)
    ensures ToBits(0, m) + ToBits(0, n) == ToBits(0, m + n)
  {
    if n > 0 {
      ZerosJoin(m, n - 1);
    } else {
      assert ToBits(0, 0) == [];
    }
  }

  /** So many zero bits hold the terminator, or fill the symbol, and end a byte. */
  predicate EnoughZeros(used: nat, capacity: nat, n: nat) {
    (n >= 4 || used + n == capacity) && (used + n) % 8 == 0
  }

  /** The number of zero bits in front of the padding bytes is the least that is enough. */
  lemma PaddingLeast(used: nat, capacity: nat) returns (n: nat)
    requires used <= capacity && capacity % 8 == 0
    ensures used + n <= capacity && EnoughZeros(used, capacity, n)
    ensures forall m: nat :: EnoughZeros(used, capacity, m) ==> m >= n
    ensures Padding(used, capacity) == ToBits(0, n) + PadBytes((capacity - used - n) / 8)
  {
    hide *;
    var terminator := if capacity - used < 4 then capacity - used else 4;
    var alignment := (8 - (used + terminator) % 8) % 8;
    AlignmentFits(used + terminator, capacity);
    n := terminator + alignment;
    NoneLess(used, capacity, terminator, alignment);
    ZerosJoin(terminator, alignment);
    PaddingIs(used, capacity, terminator, alignment, n);
  }

  lemma PaddingIs(used: nat, capacity: nat, terminator: nat, alignment: nat, n: nat)
    requires used + n <= capacity && capacity % 8 == 0 && n == terminator + alignment
    requires terminator == if capacity - used < 4 then capacity - used else 4
    requires alignment == (8 - (used + terminator) % 8) % 8
    ensures Padding(used, capacity) ==
      ToBits(0, terminator) + ToBits(0, alignment) + PadBytes((capacity - used - n) / 8)
  {
    hide *;
    PaddingUnfold(used, capacity);
    assert capacity - used - n == capacity - used - terminator - alignment;
  }

  lemma NoneLess(used: nat, capacity: nat, terminator: nat, alignment: nat)
    requires used + terminator + alignment <= capacity
    requires terminator == if capacity - used < 4 then capacity - used else 4
    requires alignment < 8 && (used + terminator + alignment) % 8 == 0
    ensures EnoughZeros(used, capacity, terminator + alignment)
    ensures forall m: nat :: EnoughZeros(used, capacity, m) ==> m >= terminator + alignment
  {
    forall m: nat | EnoughZeros(used, capacity, m)
      ensures m >= terminator + alignment
    {
      assert m >= terminator;
      NextMultiple(used + terminator + alignment, used + m);
    }
  }

  lemma NextMultiple(a: nat, b: nat)
    requires a % 8 == 0 && b % 8 == 0 && a - 8 < b
    ensures a <= b
  {}

  // ---------- Worked examples ----------

  /** A bit string as it is written. */
  function Written(s: string): (b: seq<bool>)
    ensures |b| == |s|
  {
    seq(|s|, i requires 0 <= i < |s| => s[i] == '1')
  }

  lemma CodewordBitsConcat(a: seq<bv8>, b: seq<bv8>)
    ensures CodewordBits(a + b) == CodewordBits(a) + CodewordBits(b)
  {
    hide Bit;
    forall i | 0 <= i < 8 * |a + b|
      ensures CodewordBits(a + b)[i] == (CodewordBits(a) + CodewordBits(b))[i]
    {
      if i >= 8 * |a| {
        var j := i - 8 * |a|;
        assert i / 8 == |a| + j / 8 && i % 8 == j % 8;
      }
    }
  }

  lemma SameByte(b: bv8, c: bv8)
    requires forall i :: 0 <= i < 8 ==> Bit(b, i) == Bit(c, i)
    ensures b == c
  {
    assert Bit(b, 0) == Bit(c, 0) && Bit(b, 1) == Bit(c, 1) && Bit(b, 2) == Bit(c, 2) && Bit(b, 3) == Bit(c, 3);
    assert Bit(b, 4) == Bit(c, 4) && Bit(b, 5) == Bit(c, 5) && Bit(b, 6) == Bit(c, 6) && Bit(b, 7) == Bit(c, 7);
  }

  /** The bits determine the codewords. */
  lemma CodewordBitsInjective(a: seq<bv8>, b: seq<bv8>)
    requires CodewordBits(a) == CodewordBits(b)
    ensures a == b
  {
    assert 8 * |a| == |CodewordBits(a)| == |CodewordBits(b)| == 8 * |b|;
    hide Bit;
    forall k | 0 <= k < |a|
      ensures a[k] == b[k]
    {
      forall i | 0 <= i < 8
        ensures Bit(a[k], i) == Bit(b[k], i)
      {
        var n := 8 * k + (7 - i);
        assert n / 8 == k && n % 8 == 7 - i;
        assert CodewordBits(a)[n] == Bit(a[k], i) && CodewordBits(b)[n] == Bit(b[k], i);
      }
      SameByte(a[k], b[k]);
    }
  }

  lemma FirstPadByte()
    ensures CodewordBits([0xEC]) == ToBits(0xEC, 8)
  {}

  lemma SecondPadByte()
    ensures CodewordBits([0x11]) == ToBits(0x11, 8)
  {}

  /** Padding bytes as codewords. */
  function PadWords(n: nat): (w: seq<bv8>)
    ensures |w| == n
  {
    seq(n, i => if i % 2 == 0 then 0xEC else 0x11)
  }

  lemma {:induction false} PadWordsAre(n: nat)
    ensures PadBytes(n) == CodewordBits(PadWords(n))
  {
    FirstPadByte();
    SecondPadByte();
    hide CodewordBits, ToBits;
    if n == 0 {
      assert PadWords(0) == [];
      NoBits();
    } else {
      PadWordsAre(n - 1);
      var w: bv8 := if (n - 1) % 2 == 0 then 0xEC else 0x11;
      assert PadWords(n) == PadWords(n - 1) + [w];
      CodewordBitsConcat(PadWords(n - 1), [w]);
    }
  }

  lemma NoBits()
    ensures CodewordBits([]) == []
  {}

  lemma FirstGroup()
    ensures ToBits(12, 10) == Written("0000001100")
  {}

  lemma SecondGroup()
    ensures ToBits(345, 10) == Written("0101011001")
  {}

  lemma LastGroup()
    ensures ToBits(67, 7) == Written("1000011")
  {}

  lemma GroupValues()
    ensures GroupWidth(2) == 7 && IsNumeric("01234567") && IsNumeric("34567") && IsNumeric("67")
    ensures "01234567"[..3] == "012" && "01234567"[3..] == "34567" && "34567"[..3] == "345" && "34567"[3..] == "67"
    ensures IsNumeric("012") && GroupValue("012") == 12 && IsNumeric("345") && GroupValue("345") == 345
    ensures GroupValue("67") == 67
  {}

  lemma ShortBits(t: string)
    requires IsNumeric(t) && |t| == 2
    ensures NumericBits(t) == ToBits(GroupValue(t), 7)
  {
    hide ToBits, GroupValue;
  }

  lemma NumericGroups()
    ensures IsNumeric("01234567")
    ensures NumericBits("01234567") == Written("0000001100") + (Written("0101011001") + Written("1000011"))
  {
    GroupValues();
    hide *;
    FirstGroup();
    SecondGroup();
    LastGroup();
    NumericUnfold("01234567");
    NumericUnfold("34567");
    ShortBits("67");
  }

  lemma ModeField()
    ensures ToBits(1, 4) == Written("0001")
  {}

  lemma CountField()
    ensures ToBits(8, 10) == Written("0000001000")
  {}

  lemma TailBits()
    ensures ToBits(0, 4) + ToBits(0, 3) == Written("0000000")
  {}

  lemma FirstWords()
    ensures CodewordBits([0x10, 0x20, 0x0C]) == Written("0001") + Written("0000001000") + Written("0000001100")
  {}

  lemma NextWords()
    ensures CodewordBits([0x56, 0x61, 0x80]) == Written("0101011001") + Written("1000011") + Written("0000000")
  {}

  lemma OneSegment(seg: Segment, ver: int)
    requires IsVersion(ver)
    ensures StreamBits([seg], ver) ==
      ToBits(seg.mode.ModeBits(), 4) + ToBits(seg.numChars, seg.mode.NumCharCountBits(ver)) + seg.data
  {
    hide ToBits, Mode.NumCharCountBits, Mode.ModeBits;
    assert [seg][..0] == [];
  }

  lemma ExampleStream(digits: seq<bool>)
    requires digits == NumericBits("01234567") && IsNumeric("01234567")
    ensures StreamBits([Segment(NUMERIC, 8, digits)], 1) + Written("0000000")
            == CodewordBits([0x10, 0x20, 0x0C]) + CodewordBits([0x56, 0x61, 0x80])
    ensures |digits| == 27
  {
    OneSegment(Segment(NUMERIC, 8, digits), 1);
    CountWidths(1);
    assert NUMERIC.ModeBits() == 1;
    hide *;
    NumericGroups();
    ModeField();
    CountField();
    FirstWords();
    NextWords();
    Regrouped(Written("0001"), Written("0000001000"), Written("0000001100"), Written("0101011001"), Written("1000011"),
              Written("0000000"));
  }

  lemma Regrouped(a: seq<bool>, b: seq<bool>, c: seq<bool>, d: seq<bool>, e: seq<bool>, f: seq<bool>)
    ensures a + b + (c + (d + e)) + f == (a + b + c) + (d + e + f)
  {}

  lemma ExampleAmounts(used: nat, capacity: nat, n: nat, terminator: nat, alignment: nat)
    requires used == 41 && capacity == 128 && n == 10
    requires terminator == if capacity - used < 4 then capacity - used else 4
    requires alignment == (8 - (used + terminator) % 8) % 8
    ensures terminator == 4 && alignment == 3 && (capacity - used - terminator - alignment) / 8 == n
  {}

  lemma ExamplePadding(used: nat, capacity: nat, n: nat, zeros: seq<bool>)
    requires used == 41 && capacity == 128 && n == 10 && zeros == ToBits(0, 4) + ToBits(0, 3)
    ensures Padding(used, capacity) == zeros + CodewordBits(PadWords(n))
  {
    hide *;
    PaddingUnfold(used, capacity);
    var terminator := if capacity - used < 4 then capacity - used else 4;
    var alignment := (8 - (used + terminator) % 8) % 8;
    ExampleAmounts(used, capacity, n, terminator, alignment);
    PadWordsAre(n);
  }

  /** Words that fill the capacity behind a stream that ends within them. */
  lemma FilledWith(code: seq<bv8>, stream: seq<bool>, zeros: seq<bool>, a: seq<bv8>, b: seq<bv8>, pad: seq<bv8>)
    requires CodewordBits(code) == stream + (zeros + CodewordBits(pad))
    requires stream + zeros == CodewordBits(a) + CodewordBits(b)
    ensures code == a + b + pad
  {
    hide *;
    Joined(stream, zeros, CodewordBits(pad));
    CodewordBitsConcat(a, b);
    CodewordBitsConcat(a + b, pad);
    CodewordBitsInjective(code, a + b + pad);
  }

  lemma ExampleCapacity()
    ensures NumDataCodewords(1, MEDIUM) == 16
  {}

  /** The digits "01234567" in version 1 at level M, which the standard encodes as its example. */
  lemma NumericExample(e: Encoded)
    requires IsNumeric("01234567") && e.version == 1 && e.ecl == MEDIUM
    requires IsEncoding([SegmentOf(NumericItem("01234567"))], e)
    ensures e.dataCodewords == [0x10, 0x20, 0x0C, 0x56, 0x61, 0x80] + PadWords(10)
    ensures PadWords(10) == [0xEC, 0x11, 0xEC, 0x11, 0xEC, 0x11, 0xEC, 0x11, 0xEC, 0x11]
  {
    var seg := Segment(NUMERIC, 8, NumericBits("01234567"));
    assert SegmentOf(NumericItem("01234567")) == seg;
    NumericGroups();
    ExampleStream(seg.data);
    ExampleFilled(seg, e, 41, 128);
    hide *;
    TailBits();
    PadWordsTen();
    ExampleWords(e.dataCodewords, StreamBits([seg], 1), Written("0000000"), 41, 128, 10);
  }

  lemma ExampleWords(code: seq<bv8>, stream: seq<bool>, zeros: seq<bool>, used: nat, capacity: nat, n: nat)
    requires used == 41 && capacity == 128 && n == 10 && zeros == ToBits(0, 4) + ToBits(0, 3)
    requires CodewordBits(code) == stream + Padding(used, capacity)
    requires stream + zeros == CodewordBits([0x10, 0x20, 0x0C]) + CodewordBits([0x56, 0x61, 0x80])
    ensures code == [0x10, 0x20, 0x0C, 0x56, 0x61, 0x80] + PadWords(n)
  {
    hide *;
    ExamplePadding(used, capacity, n, zeros);
    FilledWith(code, stream, zeros, [0x10, 0x20, 0x0C], [0x56, 0x61, 0x80], PadWords(n));
  }

  lemma ExampleFilled(seg: Segment, e: Encoded, used: nat, capacity: nat)
    requires used == 41 && capacity == 128
    requires e.version == 1 && e.ecl == MEDIUM && IsEncoding([seg], e)
    requires seg.mode == NUMERIC && |seg.data| == 27
    ensures CodewordBits(e.dataCodewords) == StreamBits([seg], 1) + Padding(used, capacity)
  {
    ExampleCapacity();
    OneSegment(seg, 1);
    CountWidths(1);
    hide StreamBits, Padding, CodewordBits, CountsFit, NumDataCodewords, Mode.NumCharCountBits, ToBits;
  }

  lemma Joined(a: seq<bool>, b: seq<bool>, c: seq<bool>)
    ensures a + (b + c) == (a + b) + c
  {}

  lemma FourBits()
    ensures ToBits(1, 4) == Written("0001") && ToBits(2, 4) == Written("0010") && ToBits(4, 4) == Written("0100")
  {}

  lemma MoreFourBits()
    ensures ToBits(8, 4) == Written("1000") && ToBits(7, 4) == Written("0111")
  {}

  /** The standard's table of mode indicators. */
  lemma ModeIndicators()
    ensures ToBits(NUMERIC.ModeBits(), 4) == Written("0001") && ToBits(ALPHANUMERIC.ModeBits(), 4) == Written("0010")
    ensures ToBits(BYTE.ModeBits(), 4) == Written("0100") && ToBits(KANJI.ModeBits(), 4) == Written("1000")
    ensures ToBits(ECI.ModeBits(), 4) == Written("0111")
  {
    FourBits();
    MoreFourBits();
    hide ToBits, Written;
  }

  lemma PadWordsTen()
    ensures PadWords(10) == [0xEC, 0x11, 0xEC, 0x11, 0xEC, 0x11, 0xEC, 0x11, 0xEC, 0x11]
  {}

  // An alphanumeric example.

  lemma PairsOfExample()
    ensures "AC-42"[..2] == "AC" && "AC-42"[2..] == "-42" && "-42"[..2] == "-4" && "-42"[2..] == "2"
  {}

  lemma ExampleValues()
    ensures CharsetIndex('A') == Some(10) && CharsetIndex('C') == Some(12) && CharsetIndex('-') == Some(41)
    ensures CharsetIndex('4') == Some(4) && CharsetIndex('2') == Some(2)
  {
    hide CharsetIndex, DigitValue;
    CharsetValues('A');
    CharsetValues('C');
    CharsetValues('-');
    CharsetValues('4');
    CharsetValues('2');
    assert " $%*+-./:"[5] == '-';
  }

  lemma ExamplesAlphanumeric()
    ensures IsAlphanumeric("AC-42") && IsAlphanumeric("-42")
  {
    ExampleValues();
    hide CharsetIndex;
    forall k | 0 <= k < 5
      ensures CharsetIndex("AC-42"[k]).Some?
    {
      assert k == 0 || k == 1 || k == 2 || k == 3 || k == 4;
    }
    forall k | 0 <= k < 3
      ensures CharsetIndex("-42"[k]).Some?
    {
      assert k == 0 || k == 1 || k == 2;
    }
  }

  lemma ExamplePairs()
    ensures IsAlphanumeric("AC") && IsAlphanumeric("-4") && IsAlphanumeric("2")
    ensures PairValue("AC") == 462 && PairValue("-4") == 1849 && PairValue("2") == 2
  {
    ExampleValues();
    PairOf('A', 'C');
    PairOf('-', '4');
    assert "AC" == ['A', 'C'] && "-4" == ['-', '4'];
    hide CharsetIndex;
  }

  lemma PairOf(a: char, b: char)
    requires CharsetIndex(a).Some? && CharsetIndex(b).Some?
    ensures IsAlphanumeric([a, b])
    ensures PairValue([a, b]) == 45 * CharsetIndex(a).value + CharsetIndex(b).value
  {
    hide CharsetIndex;
  }

  lemma FirstPair()
    ensures ToBits(462, 11) == Written("00111001110")
  {}

  lemma SecondPair()
    ensures ToBits(1849, 11) == Written("11100111001")
  {}

  lemma LastCharacter()
    ensures ToBits(2, 6) == Written("000010")
  {}

  /** The text "AC-42", which the standard encodes as its example. */
  lemma AlphanumericExample()
    ensures IsAlphanumeric("AC-42")
    ensures AlphanumericBits("AC-42") == Written("00111001110") + (Written("11100111001") + Written("000010"))
  {
    PairsOfExample();
    ExamplesAlphanumeric();
    ExamplePairs();
    PairWidths();
    hide *;
    FirstPair();
    SecondPair();
    LastCharacter();
    AlphanumericFront("AC-42");
    AlphanumericFront("-42");
    LoneCharacter("2");
  }

  lemma LoneCharacter(t: string)
    requires IsAlphanumeric(t) && |t| == 1
    ensures AlphanumericBits(t) == ToBits(PairValue(t), 6)
  {
    hide ToBits, PairValue;
  }
}
