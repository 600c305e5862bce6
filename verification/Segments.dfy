/** Segments of a QR symbol: the factories that encode text, bytes and ECI designators, and the matching readers. */
module Segments {
  import opened Common
  import opened Bits
  import opened Wrappers

  datatype Mode = NUMERIC | ALPHANUMERIC | BYTE | KANJI | ECI {
    function ModeBits(): (m: nat)
      ensures 0 < m < 16
    {
      match this
      case NUMERIC => 1
      case ALPHANUMERIC => 2
      case BYTE => 4
      case KANJI => 8
      case ECI => 7
    }

    /** Width of the character count field at the given version. */
    function NumCharCountBits(ver: int): (n: nat)
      requires 1 <= ver <= 40
      ensures n <= 16
    {
      var range := (ver + 7) / 17;
      match this
      case NUMERIC => if range == 0 then 10 else if range == 1 then 12 else 14
      case ALPHANUMERIC => if range == 0 then 9 else if range == 1 then 11 else 13
      case BYTE => if range == 0 then 8 else if range == 1 then 16 else 16
      case KANJI => if range == 0 then 8 else if range == 1 then 10 else 12
      case ECI => 0
    }
  }

  /** Mode, unencoded length and data bits. The source's constructor is public and checks no more than numChars >= 0. */
  datatype Segment = Segment(mode: Mode, numChars: nat, data: seq<bool>)

  datatype SegmentError = InvalidCharacter | EciOutOfRange | DataTooLong

  type Byte = b: nat | b < 256

  const ALPHANUMERIC_CHARSET := "0123456789ABCDEFGHIJKLMNOPQRSTUVWXYZ $%*+-./:"

  const INT_MAX := 0x7FFF_FFFF

  // ---------- Numeric mode ----------

  predicate IsNumeric(text: string) {
    forall k :: 0 <= k < |text| ==> IsDigit(text[k])
  }

  function DigitValue(c: char): (d: nat)
    requires IsDigit(c)
    ensures d < 10
  {
    c as int - '0' as int
  }

  function DigitChar(d: nat): (c: char)
    requires d < 10
    ensures IsDigit(c)
  {
    ('0' as int + d) as char
  }

  /** The number written by at most three digits. */
  function GroupValue(text: string): (v: nat)
    requires IsNumeric(text) && |text| <= 3
    ensures v < 1000 && (|text| <= 2 ==> v < 100) && (|text| <= 1 ==> v < 10)
  {
    if |text| == 0 then 0
    else if |text| == 1 then DigitValue(text[0])
    else if |text| == 2 then 10 * DigitValue(text[0]) + DigitValue(text[1])
    else 100 * DigitValue(text[0]) + 10 * DigitValue(text[1]) + DigitValue(text[2])
  }

  function GroupWidth(n: nat): nat {
    if n == 0 then 0 else 3 * n + 1
  }

  /** Three digits in 10 bits; two remaining digits in 7, one in 4. */
  function NumericBits(text: string): (b: seq<bool>)
    requires IsNumeric(text)
    ensures |b| == NumericLength(|text|)
  {
    if |text| <= 3 then ToBits(GroupValue(text), GroupWidth(|text|))
    else ToBits(GroupValue(text[..3]), 10) + NumericBits(text[3..])
  }

  function NumericLength(n: nat): nat {
    10 * (n / 3) + GroupWidth(n % 3)
  }

  function ReadGroup(v: nat, n: nat): (text: string)
    requires n <= 3
    ensures |text| == n
  {
    if n == 0 then []
    else if n == 1 then [DigitChar(v % 10)]
    else if n == 2 then [DigitChar(v / 10 % 10), DigitChar(v % 10)]
    else [DigitChar(v / 100 % 10), DigitChar(v / 10 % 10), DigitChar(v % 10)]
  }

  /** Reads `n` digits. */
  function ReadNumeric(bits: seq<bool>, n: nat): (text: string)
    requires |bits| == NumericLength(n)
    ensures |text| == n
  {
    if n <= 3 then ReadGroup(FromBits(bits), n)
    else ReadGroup(FromBits(bits[..10]), 3) + ReadNumeric(bits[10..], n - 3)
  }

  lemma SmallPowers()
    ensures Pow2(0) == 1 && Pow2(2) == 4 && Pow2(3) == 8 && Pow2(4) == 16 && Pow2(6) == 64 && Pow2(7) == 128
      && Pow2(8) == 256
    ensures Pow2(10) == 1024 && Pow2(11) == 2048 && Pow2(14) == 0x4000 && Pow2(21) == 0x20_0000
  {
    assert Pow2(12) == 4096;
    assert Pow2(16) == 0x1_0000;
    assert Pow2(20) == 0x10_0000;
  }

  lemma GroupRoundTrip(text: string)
    requires IsNumeric(text) && |text| <= 3
    ensures GroupValue(text) < Pow2(GroupWidth(|text|))
    ensures ReadGroup(FromBits(ToBits(GroupValue(text), GroupWidth(|text|))), |text|) == text
  {
    hide *;
    SmallPowers();
    GroupBounds(text);
    BitsRoundTrip(GroupValue(text), GroupWidth(|text|));
    ReadOfValue(text);
  }

  lemma GroupBounds(text: string)
    requires IsNumeric(text) && |text| <= 3
    ensures GroupValue(text) < Pow2(GroupWidth(|text|))
  {
    SmallPowers();
    hide Pow2;
  }

  lemma ThreeDigits(a: nat, b: nat, c: nat)
    requires a < 10 && b < 10 && c < 10
    ensures var v := 100 * a + 10 * b + c; v / 100 % 10 == a && v / 10 % 10 == b && v % 10 == c
  {
    var v := 100 * a + 10 * b + c;
    LastDigit(10 * a + b, c);
    LastDigit(a, b);
    assert v / 100 == a;
  }

  lemma LastDigit(q: nat, c: nat)
    requires c < 10
    ensures (10 * q + c) / 10 == q && (10 * q + c) % 10 == c
  {}

  lemma ReadOfValue(text: string)
    requires IsNumeric(text) && |text| <= 3
    ensures ReadGroup(GroupValue(text), |text|) == text
  {
    if |text| == 1 {
      ReadsOne(text[0]);
    } else if |text| == 2 {
      ReadsTwo(text[0], text[1]);
    } else if |text| == 3 {
      ReadsThree(text[0], text[1], text[2]);
    }
    hide DigitValue, DigitChar, ReadGroup;
  }

  lemma ReadsOne(c: char)
    requires IsDigit(c)
    ensures ReadGroup(DigitValue(c), 1) == [c]
  {}

  lemma ReadsTwo(b: char, c: char)
    requires IsDigit(b) && IsDigit(c)
    ensures ReadGroup(10 * DigitValue(b) + DigitValue(c), 2) == [b, c]
  {
    var y, z := DigitValue(b), DigitValue(c);
    assert DigitChar(y) == b && DigitChar(z) == c;
    hide DigitValue, DigitChar;
    ThreeDigits(0, y, z);
  }

  lemma ReadsThree(a: char, b: char, c: char)
    requires IsDigit(a) && IsDigit(b) && IsDigit(c)
    ensures ReadGroup(100 * DigitValue(a) + 10 * DigitValue(b) + DigitValue(c), 3) == [a, b, c]
  {
    var x, y, z := DigitValue(a), DigitValue(b), DigitValue(c);
    assert DigitChar(x) == a && DigitChar(y) == b && DigitChar(z) == c;
    hide DigitValue, DigitChar;
    ThreeDigits(x, y, z);
  }

  lemma {:induction false} NumericRoundTrip(text: string)
    requires IsNumeric(text)
    ensures ReadNumeric(NumericBits(text), |text|) == text
  {
    hide *;
    if |text| <= 3 {
      GroupRoundTrip(text);
      NumericShort(text);
    } else {
      IsNumericTail(text);
      GroupRoundTrip(text[..3]);
      NumericRoundTrip(text[3..]);
      NumericUnfold(text);
      var front := ToBits(GroupValue(text[..3]), 10);
      ReadNumericUnfold(front, NumericBits(text[3..]), |text|);
      assert text == text[..3] + text[3..];
    }
  }

  lemma IsNumericTail(text: string)
    requires IsNumeric(text) && |text| > 3
    ensures IsNumeric(text[..3]) && IsNumeric(text[3..]) && GroupWidth(3) == 10
  {}

  lemma NumericShort(text: string)
    requires IsNumeric(text) && |text| <= 3
    ensures ReadNumeric(NumericBits(text), |text|)
            == ReadGroup(FromBits(ToBits(GroupValue(text), GroupWidth(|text|))), |text|)
  {
    hide ToBits, FromBits, GroupValue, ReadGroup;
  }

  lemma NumericUnfold(text: string)
    requires IsNumeric(text) && |text| > 3
    ensures NumericBits(text) == ToBits(GroupValue(text[..3]), 10) + NumericBits(text[3..])
  {
    hide ToBits, GroupValue;
  }

  lemma ReadNumericUnfold(front: seq<bool>, back: seq<bool>, n: nat)
    requires |front| == 10 && n > 3 && |back| == NumericLength(n - 3)
    ensures |front + back| == NumericLength(n)
    ensures ReadNumeric(front + back, n) == ReadGroup(FromBits(front), 3) + ReadNumeric(back, n - 3)
  {
    hide FromBits, ReadGroup;
    assert (front + back)[..10] == front && (front + back)[10..] == back;
  }

  /** Whole groups are encoded independently of what follows. */
  lemma {:induction false} NumericConcat(a: string, b: string)
    requires IsNumeric(a) && IsNumeric(b) && |a| % 3 == 0
    ensures IsNumeric(a + b) && NumericBits(a + b) == NumericBits(a) + NumericBits(b)
  {
    hide ToBits, GroupValue, NumericLength;
    if |a| == 0 {
      assert a + b == b;
      assert ToBits(GroupValue([]), 0) == [];
    } else {
      NumericConcat(a[3..], b);
      assert (a + b)[..3] == a[..3] && (a + b)[3..] == a[3..] + b;
      if |b| == 0 {
        assert a + b == a;
      } else if |a| == 3 {
        assert a[..3] == a && (a + b)[3..] == b;
      }
    }
  }

  method MakeNumeric(digits: string) returns (r: Result<Segment, SegmentError>)
    ensures r.Ok? <==> IsNumeric(digits)
    ensures r.Ok? ==> r.value == Segment(NUMERIC, |digits|, NumericBits(digits))
    ensures r.Err? ==> r.error == InvalidCharacter
  {
    hide *;
    var bb := new BitBuffer();
    var accumData := 0;
    var accumCount := 0;
    NumericEmpty();
    GroupWidths();
    for i := 0 to |digits|
      invariant IsNumeric(digits[..i]) && accumCount == i % 3 && IsNumeric(digits[i - accumCount..i])
      invariant IsNumeric(digits[..i - accumCount])
      invariant accumData == GroupValue(digits[i - accumCount..i])
      invariant bb.bits == NumericBits(digits[..i - accumCount])
    {
      var c := digits[i];
      ghost var start := i - accumCount;
      NumericTake(digits, start, i);
      if !IsDigit(c) {
        return Err(InvalidCharacter);
      }
      accumData := accumData * 10 + DigitValue(c);
      accumCount := accumCount + 1;
      if accumCount == 3 {
        NumericFlush(digits[..start], digits[start..i + 1]);
        assert digits[..i + 1] == digits[..start] + digits[start..i + 1];
        assert digits[i + 1..i + 1] == [];
        var ok := bb.AppendBits(accumData, 10);
        assert ok;
        accumData := 0;
        accumCount := 0;
      }
    }
    ghost var start := |digits| - accumCount;
    assert digits[..|digits|] == digits[..start] + digits[start..] == digits;
    NumericFlush(digits[..start], digits[start..]);
    if accumCount > 0 {
      var ok := bb.AppendBits(accumData, accumCount * 3 + 1);
      assert ok;
    }
    r := Ok(Segment(NUMERIC, |digits|, bb.bits));
  }

  lemma NumericEmpty()
    ensures IsNumeric([]) && NumericBits([]) == [] && GroupValue([]) == 0
  {}

  /** Taking in digit `i` when the pending group starts at `start`. */
  lemma NumericTake(text: string, start: nat, i: nat)
    requires start <= i < |text| && i - start < 3 && IsNumeric(text[..i])
    ensures !IsDigit(text[i]) ==> !IsNumeric(text)
    ensures IsNumeric(text[..start]) && IsNumeric(text[start..i])
    ensures IsDigit(text[i]) ==>
      && IsNumeric(text[..i + 1]) && IsNumeric(text[start..i + 1])
      && GroupValue(text[start..i + 1]) == GroupValue(text[start..i]) * 10 + DigitValue(text[i])
  {
    hide DigitValue, IsDigit;
    assert text[start..i + 1] == text[start..i] + [text[i]];
    assert forall k :: 0 <= k < i ==> text[..i][k] == text[k];
  }

  lemma GroupWidths()
    ensures GroupWidth(1) == 4 && GroupWidth(2) == 7 && GroupWidth(3) == 10
      && forall v: nat :: ToBits(v, GroupWidth(0)) == []
  {}

  /** Appending the bits of a group to the bits of whole groups. */
  lemma NumericFlush(a: string, group: string)
    requires IsNumeric(a) && IsNumeric(group) && |a| % 3 == 0 && |group| <= 3
    ensures GroupValue(group) < Pow2(GroupWidth(|group|))
    ensures IsNumeric(a + group)
    ensures NumericBits(a + group) == NumericBits(a) + ToBits(GroupValue(group), GroupWidth(|group|))
  {
    GroupRoundTrip(group);
    NumericConcat(a, group);
  }

  // ---------- Alphanumeric mode ----------

  /** The index of the first occurrence of `c`. */
  function StrChr(s: string, c: char): (r: Option<nat>)
    ensures r.Some? ==> r.value < |s| && s[r.value] == c
    ensures r.None? ==> c !in s
  {
    if s == [] then None
    else if s[0] == c then Some(0)
    else
      match StrChr(s[1..], c)
      case None => None
      case Some(k) => Some(k + 1)
  }

  function CharsetIndex(c: char): (r: Option<nat>)
    ensures r.Some? ==> r.value < 45
  {
    StrChr(ALPHANUMERIC_CHARSET, c)
  }

  predicate IsAlphanumeric(text: string) {
    forall k :: 0 <= k < |text| ==> CharsetIndex(text[k]).Some?
  }

  function CharAt(v: nat): char
    requires v < 45
  {
    ALPHANUMERIC_CHARSET[v]
  }

  /** The number written by at most two characters. */
  function PairValue(text: string): (v: nat)
    requires IsAlphanumeric(text) && |text| <= 2
    ensures v < 2025 && (|text| <= 1 ==> v < 45)
  {
    if |text| == 0 then 0
    else if |text| == 1 then CharsetIndex(text[0]).value
    else 45 * CharsetIndex(text[0]).value + CharsetIndex(text[1]).value
  }

  function PairWidth(n: nat): nat {
    if n == 0 then 0 else 5 * n + 1
  }

  /** Two characters in 11 bits, a remaining one in 6. */
  function AlphanumericBits(text: string): (b: seq<bool>)
    requires IsAlphanumeric(text)
    ensures |b| == AlphanumericLength(|text|)
  {
    if |text| <= 2 then ToBits(PairValue(text), PairWidth(|text|))
    else ToBits(PairValue(text[..2]), 11) + AlphanumericBits(text[2..])
  }

  function AlphanumericLength(n: nat): nat {
    11 * (n / 2) + PairWidth(n % 2)
  }

  function ReadPair(v: nat, n: nat): (text: string)
    requires n <= 2
    ensures |text| == n
  {
    if n == 0 then [] else if n == 1 then [CharAt(v % 45)] else [CharAt(v / 45 % 45), CharAt(v % 45)]
  }

  /** Reads `n` characters. */
  function ReadAlphanumeric(bits: seq<bool>, n: nat): (text: string)
    requires |bits| == AlphanumericLength(n)
    ensures |text| == n
  {
    if n <= 2 then ReadPair(FromBits(bits), n)
    else ReadPair(FromBits(bits[..11]), 2) + ReadAlphanumeric(bits[11..], n - 2)
  }

  lemma PairDigits(x: nat, y: nat)
    requires x < 45 && y < 45
    ensures var v := 45 * x + y; v / 45 % 45 == x && v % 45 == y
  {}

  lemma CharAtIndex(c: char)
    requires CharsetIndex(c).Some?
    ensures CharAt(CharsetIndex(c).value) == c
  {}

  lemma ReadOfPair(text: string)
    requires IsAlphanumeric(text) && |text| <= 2
    ensures ReadPair(PairValue(text), |text|) == text
  {
    hide CharsetIndex, CharAt;
    if |text| == 1 {
      CharAtIndex(text[0]);
      PairDigits(0, CharsetIndex(text[0]).value);
    } else if |text| == 2 {
      CharAtIndex(text[0]);
      CharAtIndex(text[1]);
      PairDigits(CharsetIndex(text[0]).value, CharsetIndex(text[1]).value);
    }
  }

  lemma PairBounds(text: string)
    requires IsAlphanumeric(text) && |text| <= 2
    ensures PairValue(text) < Pow2(PairWidth(|text|))
  {
    SmallPowers();
    hide Pow2, CharsetIndex;
  }

  lemma PairRoundTrip(text: string)
    requires IsAlphanumeric(text) && |text| <= 2
    ensures ReadPair(FromBits(ToBits(PairValue(text), PairWidth(|text|))), |text|) == text
  {
    hide *;
    PairBounds(text);
    BitsRoundTrip(PairValue(text), PairWidth(|text|));
    ReadOfPair(text);
  }

  lemma {:induction false} AlphanumericRoundTrip(text: string)
    requires IsAlphanumeric(text)
    ensures ReadAlphanumeric(AlphanumericBits(text), |text|) == text
  {
    hide ToBits, FromBits, CharsetIndex, PairValue, ReadPair;
    if |text| <= 2 {
      PairRoundTrip(text);
    } else {
      PairRoundTrip(text[..2]);
      AlphanumericRoundTrip(text[2..]);
      var bits := AlphanumericBits(text);
      assert bits[..11] == ToBits(PairValue(text[..2]), 11) && bits[11..] == AlphanumericBits(text[2..]);
      assert text == text[..2] + text[2..];
    }
  }

  /** Whole pairs are encoded independently of what follows. */
  lemma {:induction false} AlphanumericConcat(a: string, b: string)
    requires IsAlphanumeric(a) && IsAlphanumeric(b) && |a| % 2 == 0
    ensures IsAlphanumeric(a + b) && AlphanumericBits(a + b) == AlphanumericBits(a) + AlphanumericBits(b)
  {
    hide *;
    AlphanumericJoin(a, b);
    if |a| == 0 {
      AlphanumericEmpty();
      assert a + b == b && a == [];
    } else {
      AlphanumericFront(a);
      AlphanumericConcat(a[2..], b);
      assert (a + b)[..2] == a[..2] && (a + b)[2..] == a[2..] + b;
      AlphanumericFront(a + b);
    }
  }

  lemma AlphanumericJoin(a: string, b: string)
    requires IsAlphanumeric(a) && IsAlphanumeric(b)
    ensures IsAlphanumeric(a + b)
  {
    hide CharsetIndex;
  }

  /** The first pair is encoded independently of the rest. */
  lemma AlphanumericFront(text: string)
    requires IsAlphanumeric(text) && |text| >= 2
    ensures IsAlphanumeric(text[..2]) && IsAlphanumeric(text[2..])
    ensures AlphanumericBits(text) == ToBits(PairValue(text[..2]), 11) + AlphanumericBits(text[2..])
  {
    hide PairValue, CharsetIndex;
    if |text| == 2 {
      AlphanumericEmpty();
      assert text[..2] == text;
    }
  }

  /** Appending the bits of a pair to the bits of whole pairs. */
  lemma AlphanumericFlush(a: string, pair: string)
    requires IsAlphanumeric(a) && IsAlphanumeric(pair) && |a| % 2 == 0 && |pair| <= 2
    ensures PairValue(pair) < Pow2(PairWidth(|pair|))
    ensures IsAlphanumeric(a + pair)
    ensures AlphanumericBits(a + pair) == AlphanumericBits(a) + ToBits(PairValue(pair), PairWidth(|pair|))
  {
    PairBounds(pair);
    AlphanumericConcat(a, pair);
  }

  lemma AlphanumericEmpty()
    ensures IsAlphanumeric([]) && AlphanumericBits([]) == [] && PairValue([]) == 0
  {}

  /** Taking in character `i` when the pending pair starts at `start`. */
  lemma AlphanumericTake(text: string, start: nat, i: nat)
    requires start <= i < |text| && i - start < 2 && IsAlphanumeric(text[..i])
    ensures CharsetIndex(text[i]).None? ==> !IsAlphanumeric(text)
    ensures IsAlphanumeric(text[..start]) && IsAlphanumeric(text[start..i])
    ensures CharsetIndex(text[i]).Some? ==>
      && IsAlphanumeric(text[..i + 1]) && IsAlphanumeric(text[start..i + 1])
      && PairValue(text[start..i + 1]) == PairValue(text[start..i]) * 45 + CharsetIndex(text[i]).value
  {
    hide CharsetIndex;
    assert forall k :: 0 <= k < i ==> text[..i][k] == text[k];
  }

  method MakeAlphanumeric(text: string) returns (r: Result<Segment, SegmentError>)
    ensures r.Ok? <==> IsAlphanumeric(text)
    ensures r.Ok? ==> r.value == Segment(ALPHANUMERIC, |text|, AlphanumericBits(text))
    ensures r.Err? ==> r.error == InvalidCharacter
  {
    hide *;
    var bb := new BitBuffer();
    var accumData := 0;
    var accumCount := 0;
    AlphanumericEmpty();
    PairWidths();
    for i := 0 to |text|
      invariant IsAlphanumeric(text[..i]) && accumCount == i % 2 && IsAlphanumeric(text[i - accumCount..i])
      invariant IsAlphanumeric(text[..i - accumCount])
      invariant accumData == PairValue(text[i - accumCount..i])
      invariant bb.bits == AlphanumericBits(text[..i - accumCount])
    {
      var temp := CharsetIndex(text[i]);
      ghost var start := i - accumCount;
      AlphanumericTake(text, start, i);
      if temp.None? {
        return Err(InvalidCharacter);
      }
      accumData := accumData * 45 + temp.value;
      accumCount := accumCount + 1;
      if accumCount == 2 {
        AlphanumericFlush(text[..start], text[start..i + 1]);
        assert text[..i + 1] == text[..start] + text[start..i + 1];
        assert text[i + 1..i + 1] == [];
        var ok := bb.AppendBits(accumData, 11);
        assert ok;
        accumData := 0;
        accumCount := 0;
      }
    }
    ghost var start := |text| - accumCount;
    assert text[..|text|] == text[..start] + text[start..] == text;
    AlphanumericFlush(text[..start], text[start..]);
    if accumCount > 0 {
      var ok := bb.AppendBits(accumData, 6);
      assert ok;
    }
    r := Ok(Segment(ALPHANUMERIC, |text|, bb.bits));
  }

  lemma PairWidths()
    ensures PairWidth(1) == 6 && PairWidth(2) == 11 && forall v: nat :: ToBits(v, PairWidth(0)) == []
  {}

  // ---------- Byte mode ----------

  function ByteBits(data: seq<Byte>): (b: seq<bool>)
    ensures |b| == 8 * |data|
  {
    if data == [] then [] else ToBits(data[0], 8) + ByteBits(data[1..])
  }

  /** Reads `n` bytes. */
  function ReadBytes(bits: seq<bool>, n: nat): (data: seq<Byte>)
    requires |bits| == 8 * n
    ensures |data| == n
  {
    if n == 0 then [] else [FromBits(bits[..8]) % 256] + ReadBytes(bits[8..], n - 1)
  }

  lemma {:induction false} BytesRoundTrip(data: seq<Byte>)
    ensures ReadBytes(ByteBits(data), |data|) == data
  {
    hide ToBits, FromBits, Pow2;
    if data != [] {
      SmallPowers();
      BitsRoundTrip(data[0], 8);
      BytesRoundTrip(data[1..]);
      var bits := ByteBits(data);
      assert bits[..8] == ToBits(data[0], 8) && bits[8..] == ByteBits(data[1..]);
    }
  }

  lemma {:induction false} ByteBitsSnoc(data: seq<Byte>, b: Byte)
    ensures ByteBits(data + [b]) == ByteBits(data) + ToBits(b, 8)
  {
    hide ToBits;
    if data == [] {
      assert [b][1..] == [] && data + [b] == [b];
    } else {
      ByteBitsSnoc(data[1..], b);
      assert (data + [b])[1..] == data[1..] + [b];
    }
  }

  method MakeBytes(data: seq<Byte>) returns (r: Result<Segment, SegmentError>)
    ensures r.Ok? <==> |data| <= INT_MAX
    ensures r.Ok? ==> r.value == Segment(BYTE, |data|, ByteBits(data))
    ensures r.Err? ==> r.error == DataTooLong
  {
    if |data| > INT_MAX {
      return Err(DataTooLong);
    }
    hide ToBits, ByteBits, Pow2;
    var bb := new BitBuffer();
    assert ByteBits([]) == [];
    SmallPowers();
    for i := 0 to |data|
      invariant bb.bits == ByteBits(data[..i])
    {
      var ok := bb.AppendBits(data[i], 8);
      assert ok;
      ByteBitsSnoc(data[..i], data[i]);
      assert data[..i + 1] == data[..i] + [data[i]];
    }
    assert data[..|data|] == data;
    r := Ok(Segment(BYTE, |data|, bb.bits));
  }

  // ---------- ECI designators ----------

  function EciBits(assignVal: nat): seq<bool> {
    if assignVal < 0x80 then ToBits(assignVal, 8)
    else if assignVal < 0x4000 then ToBits(2, 2) + ToBits(assignVal, 14)
    else ToBits(6, 3) + ToBits(assignVal, 21)
  }

  /** The length of the designator at the start of `bits`, told by its first bits. */
  function EciLength(bits: seq<bool>): Option<nat> {
    if |bits| < 3 then None
    else if !bits[0] then Some(8)
    else if !bits[1] then Some(16)
    else if !bits[2] then Some(24)
    else None
  }

  /** Reads a designator that takes up all of `bits`. */
  function ReadEci(bits: seq<bool>): nat
    requires EciLength(bits).Some?
  {
    if !bits[0] then FromBits(bits) else if !bits[1] then FromBits(bits[2..]) else FromBits(bits[3..])
  }

  lemma {:induction false} TopBitClear(v: nat, len: nat)
    requires len > 0 && v < Pow2(len - 1)
    ensures !ToBits(v, len)[0]
  {
    if len > 1 {
      TopBitClear(v / 2, len - 1);
    }
  }

  lemma EciRoundTrip(assignVal: nat, rest: seq<bool>)
    requires assignVal < 1_000_000
    ensures EciLength(EciBits(assignVal) + rest) == Some(|EciBits(assignVal)|)
    ensures EciLength(EciBits(assignVal)).Some?
    ensures ReadEci(EciBits(assignVal)) == assignVal
  {
    SmallPowers();
    EciPrefixes();
    var bits := EciBits(assignVal);
    hide ToBits, FromBits, Pow2;
    if assignVal < 0x80 {
      TopBitClear(assignVal, 8);
      BitsRoundTrip(assignVal, 8);
    } else if assignVal < 0x4000 {
      BitsRoundTrip(assignVal, 14);
      assert bits[2..] == ToBits(assignVal, 14);
    } else {
      BitsRoundTrip(assignVal, 21);
      assert bits[3..] == ToBits(assignVal, 21);
    }
  }

  lemma EciPrefixes()
    ensures ToBits(2, 2) == [true, false] && ToBits(6, 3) == [true, true, false]
  {}

  lemma EciCases(v: int)
    ensures 0 <= v < 0x80 ==> EciBits(v) == ToBits(v, 8)
    ensures 0x80 <= v < 0x4000 ==> EciBits(v) == ToBits(2, 2) + ToBits(v, 14)
    ensures 0x4000 <= v ==> EciBits(v) == ToBits(6, 3) + ToBits(v, 21)
  {
    hide ToBits;
  }

  method MakeEci(assignVal: int) returns (r: Result<Segment, SegmentError>)
    ensures r.Ok? <==> 0 <= assignVal < 1_000_000
    ensures r.Ok? ==> r.value == Segment(ECI, 0, EciBits(assignVal))
    ensures r.Err? ==> r.error == EciOutOfRange
  {
    SmallPowers();
    hide *;
    var bb := new BitBuffer();
    var ok;
    EciCases(assignVal);
    if assignVal < 0 {
      return Err(EciOutOfRange);
    } else if assignVal < 0x80 {
      ok := bb.AppendBits(assignVal, 8);
    } else if assignVal < 0x4000 {
      ok := bb.AppendBits(2, 2);
      ok := bb.AppendBits(assignVal, 14);
    } else if assignVal < 1_000_000 {
      ok := bb.AppendBits(6, 3);
      ok := bb.AppendBits(assignVal, 21);
    } else {
      return Err(EciOutOfRange);
    }
    assert ok;
    r := Ok(Segment(ECI, 0, bb.bits));
  }
}
