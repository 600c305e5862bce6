/** A reader for the data bit stream of a symbol, and the proof that it recovers what was encoded. */
module SymbolReader {
  import opened Wrappers
  import opened Bits
  import opened QrTables
  import opened Segments
  import opened SymbolEncoder

  /** What a segment made by one of the factories stands for. */
  datatype Item =
    | NumericItem(text: string)
    | AlphanumericItem(text: string)
    | ByteItem(data: seq<Byte>)
    | EciItem(value: nat)

  predicate Encodable(item: Item) {
    match item
    case NumericItem(text) => IsNumeric(text)
    case AlphanumericItem(text) => IsAlphanumeric(text)
    case ByteItem(data) => |data| <= INT_MAX
    case EciItem(value) => value < 1_000_000
  }

  /** The segment the factory makes of an item. */
  function SegmentOf(item: Item): Segment
    requires Encodable(item)
  {
    match item
    case NumericItem(text) => Segment(NUMERIC, |text|, NumericBits(text))
    case AlphanumericItem(text) => Segment(ALPHANUMERIC, |text|, AlphanumericBits(text))
    case ByteItem(data) => Segment(BYTE, |data|, ByteBits(data))
    case EciItem(value) => Segment(ECI, 0, EciBits(value))
  }

  function SegmentsOf(items: seq<Item>): (segs: seq<Segment>)
    requires forall k :: 0 <= k < |items| ==> Encodable(items[k])
    ensures |segs| == |items| && forall k :: 0 <= k < |items| ==> segs[k] == SegmentOf(items[k])
  {
    seq(|items|, k requires 0 <= k < |items| => SegmentOf(items[k]))
  }

  /** The factory that makes the segment of an item. */
  method MakeSegment(item: Item) returns (r: Result<Segment, SegmentError>)
    ensures r.Ok? <==> Encodable(item)
    ensures r.Ok? ==> r.value == SegmentOf(item)
  {
    match item
    case NumericItem(text) => r := MakeNumeric(text);
    case AlphanumericItem(text) => r := MakeAlphanumeric(text);
    case ByteItem(data) => r := MakeBytes(data);
    case EciItem(value) => r := MakeEci(value);
  }

  // ---------- Reading ----------

  function ModeFromBits(m: nat): Option<Mode> {
    match m
    case 1 => Some(NUMERIC)
    case 2 => Some(ALPHANUMERIC)
    case 4 => Some(BYTE)
    case 7 => Some(ECI)
    case _ => None
  }

  /** The length of a payload of `n` characters at the start of `bits`. */
  function PayloadLength(mode: Mode, n: nat, bits: seq<bool>): Option<nat> {
    match mode
    case NUMERIC => Some(NumericLength(n))
    case ALPHANUMERIC => Some(AlphanumericLength(n))
    case BYTE => Some(8 * n)
    case ECI => EciLength(bits)
    case KANJI => None
  }

  function ReadPayload(mode: Mode, n: nat, payload: seq<bool>): Item
    requires PayloadLength(mode, n, payload) == Some(|payload|)
  {
    match mode
    case NUMERIC => NumericItem(ReadNumeric(payload, n))
    case ALPHANUMERIC => AlphanumericItem(ReadAlphanumeric(payload, n))
    case BYTE => ByteItem(ReadBytes(payload, n))
    case ECI => EciItem(ReadEci(payload))
  }

  /** One segment at the start of `bits`: its item and the number of bits it takes. */
  function ReadSegment(bits: seq<bool>, ver: int): (r: Option<(Item, nat)>)
    requires IsVersion(ver) && |bits| >= 4
    ensures r.Some? ==> 4 <= r.value.1 <= |bits|
  {
    match ModeFromBits(FromBits(bits[..4]))
    case None => None
    case Some(mode) =>
      var start := 4 + mode.NumCharCountBits(ver);
      if |bits| < start then None
      else
        var n := FromBits(bits[4..start]);
        match PayloadLength(mode, n, bits[start..])
        case None => None
        case Some(len) =>
          if start + len > |bits| then None
          else
            var payload := bits[start..start + len];
            if PayloadLength(mode, n, payload) == Some(len) then Some((ReadPayload(mode, n, payload), start + len))
              else None
  }

  /** Reads segments up to the terminator, or up to a rest too short for a mode indicator. */
  function Parse(bits: seq<bool>, ver: int): Option<seq<Item>>
    requires IsVersion(ver)
    decreases |bits|
  {
    if |bits| < 4 || FromBits(bits[..4]) == 0 then Some([])
    else
      match ReadSegment(bits, ver)
      case None => None
      case Some((item, len)) =>
        match Parse(bits[len..], ver)
        case None => None
        case Some(items) => Some([item] + items)
  }

  // ---------- Round trip ----------

  lemma PayloadRoundTrip(item: Item, rest: seq<bool>)
    requires Encodable(item)
    ensures var seg := SegmentOf(item);
      && PayloadLength(seg.mode, seg.numChars, seg.data + rest) == Some(|seg.data|)
      && PayloadLength(seg.mode, seg.numChars, seg.data) == Some(|seg.data|)
      && ReadPayload(seg.mode, seg.numChars, seg.data) == item
  {
    match item
    case NumericItem(text) => NumericRoundTrip(text);
    case AlphanumericItem(text) => AlphanumericRoundTrip(text);
    case ByteItem(data) => BytesRoundTrip(data);
    case EciItem(value) =>
      EciRoundTrip(value, rest);
      EciRoundTrip(value, []);
      assert EciBits(value) + [] == EciBits(value);
  }

  lemma ModeRoundTrip(mode: Mode)
    ensures FromBits(ToBits(mode.ModeBits(), 4)) == mode.ModeBits() != 0
    ensures mode != KANJI ==> ModeFromBits(mode.ModeBits()) == Some(mode)
  {
    SmallPowers();
    BitsRoundTrip(mode.ModeBits(), 4);
  }

  /** A segment whose payload announces its own length is read back, whatever follows it. */
  lemma SegmentRoundTrip(seg: Segment, rest: seq<bool>, ver: int, bits: seq<bool>)
    requires IsVersion(ver) && seg.mode != KANJI && seg.numChars < Pow2(seg.mode.NumCharCountBits(ver))
    requires bits == SegmentBits(seg, ver) + rest
    requires PayloadLength(seg.mode, seg.numChars, seg.data + rest) == Some(|seg.data|)
    requires PayloadLength(seg.mode, seg.numChars, seg.data) == Some(|seg.data|)
    ensures FromBits(bits[..4]) != 0
    ensures ReadSegment(bits, ver) == Some((ReadPayload(seg.mode, seg.numChars, seg.data), |SegmentBits(seg, ver)|))
  {
    hide *;
    VersionIs(ver);
    ModeRoundTrip(seg.mode);
    BitsRoundTrip(seg.numChars, seg.mode.NumCharCountBits(ver));
    HeaderSlices(seg, rest, ver, bits);
    ReadSegmentUnfold(bits, ver, seg.mode, seg.numChars, |seg.data|);
  }

  lemma VersionIs(ver: int)
    requires IsVersion(ver)
    ensures 1 <= ver <= 40
  {}

  lemma FactoryModes(item: Item)
    requires Encodable(item)
    ensures SegmentOf(item).mode != KANJI
  {}

  lemma ReadSegmentUnfold(bits: seq<bool>, ver: int, mode: Mode, n: nat, len: nat)
    requires IsVersion(ver)
    requires var start := 4 + mode.NumCharCountBits(ver);
      && start + len <= |bits|
      && ModeFromBits(FromBits(bits[..4])) == Some(mode)
      && FromBits(bits[4..start]) == n
      && PayloadLength(mode, n, bits[start..]) == Some(len) == PayloadLength(mode, n, bits[start..start + len])
    ensures var start := 4 + mode.NumCharCountBits(ver);
      ReadSegment(bits, ver) == Some((ReadPayload(mode, n, bits[start..start + len]), start + len))
  {
    hide FromBits, Mode.NumCharCountBits, ModeFromBits, PayloadLength, ReadPayload;
  }

  lemma HeaderSlices(seg: Segment, rest: seq<bool>, ver: int, bits: seq<bool>)
    requires IsVersion(ver) && bits == SegmentBits(seg, ver) + rest
    ensures var start := 4 + seg.mode.NumCharCountBits(ver);
      && bits[..4] == ToBits(seg.mode.ModeBits(), 4)
      && bits[4..start] == ToBits(seg.numChars, start - 4)
      && bits[start..] == seg.data + rest
      && bits[start..start + |seg.data|] == seg.data
  {
    hide ToBits, Mode.ModeBits, Mode.NumCharCountBits;
  }

  /** The stream of the segments from the front. */
  lemma {:induction false} StreamFront(segs: seq<Segment>, ver: int)
    requires IsVersion(ver) && segs != []
    ensures StreamBits(segs, ver) == SegmentBits(segs[0], ver) + StreamBits(segs[1..], ver)
  {
    hide *;
    var init, last := segs[..|segs| - 1], segs[|segs| - 1];
    assert segs == init + [last];
    StreamSnoc(init, last, ver);
    if |segs| == 1 {
      StreamEmpty(ver);
      assert segs[1..] == [] && init == [];
    } else {
      StreamFront(init, ver);
      assert segs[1..] == init[1..] + [last];
      StreamSnoc(init[1..], last, ver);
    }
  }

  lemma StreamEmpty(ver: int)
    requires IsVersion(ver)
    ensures StreamBits([], ver) == []
  {}

  lemma StreamSnoc(segs: seq<Segment>, last: Segment, ver: int)
    requires IsVersion(ver)
    ensures StreamBits(segs + [last], ver) == StreamBits(segs, ver) + SegmentBits(last, ver)
  {
    hide SegmentBits;
    assert (segs + [last])[..|segs|] == segs;
  }

  lemma ParseUnfold(bits: seq<bool>, ver: int)
    requires IsVersion(ver)
    ensures |bits| < 4 || FromBits(bits[..4]) == 0 ==> Parse(bits, ver) == Some([])
    ensures |bits| >= 4 && FromBits(bits[..4]) != 0 && ReadSegment(bits, ver).Some? ==>
      var (item, len) := ReadSegment(bits, ver).value;
      Parse(bits[len..], ver).Some? ==> Parse(bits, ver) == Some([item] + Parse(bits[len..], ver).value)
  {
    hide FromBits, ReadSegment;
  }

  lemma {:induction false} ParseStream(items: seq<Item>, pad: seq<bool>, ver: int)
    requires IsVersion(ver) && forall k :: 0 <= k < |items| ==> Encodable(items[k])
    requires CountsFit(SegmentsOf(items), ver)
    requires |pad| < 4 || FromBits(pad[..4]) == 0
    ensures Parse(StreamBits(SegmentsOf(items), ver) + pad, ver) == Some(items)
  {
    hide *;
    var segs := SegmentsOf(items);
    if items == [] {
      StreamEmpty(ver);
      assert segs == [];
      assert StreamBits(segs, ver) + pad == pad;
      ParseUnfold(pad, ver);
    } else {
      var rest := items[1..];
      assert SegmentsOf(rest) == segs[1..];
      CountsFitMeans(items, ver);
      ParseStream(rest, pad, ver);
      StreamFront(segs, ver);
      var head, tail := SegmentBits(segs[0], ver), StreamBits(segs[1..], ver) + pad;
      assert StreamBits(segs, ver) + pad == head + tail;
      FactoryModes(items[0]);
      PayloadRoundTrip(items[0], tail);
      SegmentRoundTrip(segs[0], tail, ver, head + tail);
      assert (head + tail)[|head|..] == tail;
      ParseUnfold(head + tail, ver);
      assert items == [items[0]] + rest;
    }
  }

  lemma CountsFitMeans(items: seq<Item>, ver: int)
    requires IsVersion(ver) && items != [] && forall k :: 0 <= k < |items| ==> Encodable(items[k])
    requires CountsFit(SegmentsOf(items), ver)
    ensures SegmentOf(items[0]).numChars < Pow2(SegmentOf(items[0]).mode.NumCharCountBits(ver))
    ensures CountsFit(SegmentsOf(items[1..]), ver)
  {
    hide SegmentOf, Pow2, Mode.NumCharCountBits;
    var segs := SegmentsOf(items);
    assert segs[0] == SegmentOf(items[0]);
    assert SegmentsOf(items[1..]) == segs[1..];
  }

  lemma {:induction false} ZeroBitsValue(n: nat)
    ensures FromBits(ToBits(0, n)) == 0
  {
    SmallPowers();
    BitsRoundTrip(0, n);
  }

  lemma PaddingEndsStream(used: nat, capacity: nat)
    requires used <= capacity && capacity % 8 == 0
    ensures var pad := Padding(used, capacity); |pad| < 4 || FromBits(pad[..4]) == 0
  {
    ZeroBitsValue(4);
    hide FromBits, PadBytes, ToBits;
    if capacity - used >= 4 {
      assert Padding(used, capacity)[..4] == ToBits(0, 4);
    }
  }

  /** The bits of an encoded symbol's data codewords are read back as the items they were made of. */
  lemma EncodingRoundTrip(items: seq<Item>, e: Encoded)
    requires forall k :: 0 <= k < |items| ==> Encodable(items[k])
    requires IsEncoding(SegmentsOf(items), e)
    ensures Parse(CodewordBits(e.dataCodewords), e.version) == Some(items)
  {
    hide CodewordBits, NumDataCodewords, StreamBits, Padding, CountsFit, Parse;
    var used := |StreamBits(SegmentsOf(items), e.version)|;
    CapacityBounded(e.version, e.ecl);
    PaddingEndsStream(used, NumDataCodewords(e.version, e.ecl) * 8);
    ParseStream(items, Padding(used, NumDataCodewords(e.version, e.ecl) * 8), e.version);
  }
}
