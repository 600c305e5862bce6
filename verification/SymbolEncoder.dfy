/** The data bit stream of a symbol: choosing version and level, header and padding bits, packing into bytes. */
module SymbolEncoder {
  import opened Wrappers
  import opened Bits
  import opened Galois
  import opened QrTables
  import opened Segments

  // ---------- Bytes as bits ----------

  /** The bits of a byte sequence, each byte with its most significant bit first. */
  function CodewordBits(codewords: seq<bv8>): (b: seq<bool>)
    ensures |b| == 8 * |codewords|
  {
    seq(8 * |codewords|, i requires 0 <= i < 8 * |codewords| => Bit(codewords[i / 8], 7 - i % 8))
  }

  /** Sets bit `k` of `b` if `v` holds. */
  function OrBit(b: bv8, v: bool, k: nat): bv8
    requires k < 8
  {
    b | ((if v then 1 else 0) << k)
  }

  lemma OrBitSets(b: bv8, v: bool, k: nat, j: nat)
    requires k < 8 && j < 8
    ensures Bit(OrBit(b, v, k), j) == (Bit(b, j) || (v && j == k))
  {
    if !v {
      assert OrBit(b, v, k) == b by { ZeroShifted(k); }
    } else {
      var m := OneShifted(k);
      OneShiftedIs(k);
      assert OrBit(b, v, k) == b | m;
      MaskBits(b, m, j);
      MaskIsBit(k, j);
    }
  }

  /** 1 << k. */
  function OneShifted(k: nat): bv8
    requires k < 8
  {
    match k
    case 0 => 0x01
    case 1 => 0x02
    case 2 => 0x04
    case 3 => 0x08
    case 4 => 0x10
    case 5 => 0x20
    case 6 => 0x40
    case 7 => 0x80
  }

  lemma ZeroShifted(k: nat)
    requires k < 8
    ensures (0 as bv8) << k == 0
  {}

  lemma OneShiftedIs(k: nat)
    requires k < 8
    ensures (1 as bv8) << k == OneShifted(k)
  {
    match k
    case 0 => assert (1 as bv8) << k == (1 as bv8) << 0;
    case 1 => assert (1 as bv8) << k == (1 as bv8) << 1;
    case 2 => assert (1 as bv8) << k == (1 as bv8) << 2;
    case 3 => assert (1 as bv8) << k == (1 as bv8) << 3;
    case 4 => assert (1 as bv8) << k == (1 as bv8) << 4;
    case 5 => assert (1 as bv8) << k == (1 as bv8) << 5;
    case 6 => assert (1 as bv8) << k == (1 as bv8) << 6;
    case 7 => assert (1 as bv8) << k == (1 as bv8) << 7;
  }

  lemma MaskIsBit(k: nat, j: nat)
    requires k < 8 && j < 8
    ensures Bit(OneShifted(k), j) == (j == k)
  {}

  lemma MaskBits(b: bv8, m: bv8, j: nat)
    requires j < 8
    ensures Bit(b | m, j) == (Bit(b, j) || Bit(m, j))
  {
    match j
    case 0 => assert ((b | m) & 0x01 != 0) == ((b & 0x01 != 0) || (m & 0x01 != 0));
    case 1 => assert ((b | m) & 0x02 != 0) == ((b & 0x02 != 0) || (m & 0x02 != 0));
    case 2 => assert ((b | m) & 0x04 != 0) == ((b & 0x04 != 0) || (m & 0x04 != 0));
    case 3 => assert ((b | m) & 0x08 != 0) == ((b & 0x08 != 0) || (m & 0x08 != 0));
    case 4 => assert ((b | m) & 0x10 != 0) == ((b & 0x10 != 0) || (m & 0x10 != 0));
    case 5 => assert ((b | m) & 0x20 != 0) == ((b & 0x20 != 0) || (m & 0x20 != 0));
    case 6 => assert ((b | m) & 0x40 != 0) == ((b & 0x40 != 0) || (m & 0x40 != 0));
    case 7 => assert ((b | m) & 0x80 != 0) == ((b & 0x80 != 0) || (m & 0x80 != 0));
  }

  /** Packs bits into bytes, big end first. */
  method PackBytes(bits: seq<bool>) returns (codewords: seq<bv8>)
    requires |bits| % 8 == 0
    ensures CodewordBits(codewords) == bits
  {
    hide Bit, OrBit;
    var data := new bv8[|bits| / 8](_ => 0);
    assert forall k, j :: 0 <= k < |bits| / 8 && 0 <= j < 8 ==> !Bit(data[k], j) by { ZeroBits(); }
    for i := 0 to |bits|
      invariant forall n :: 0 <= n < |bits| ==> Bit(data[n / 8], 7 - n % 8) == (n < i && bits[n])
    {
      ghost var before := data[i / 8];
      data[i / 8] := OrBit(data[i / 8], bits[i], 7 - i % 8);
      forall n | 0 <= n < |bits|
        ensures Bit(data[n / 8], 7 - n % 8) == (n < i + 1 && bits[n])
      {
        OrBitSets(before, bits[i], 7 - i % 8, 7 - n % 8);
        if n / 8 == i / 8 && n % 8 == i % 8 {
          assert n == i;
        }
      }
    }
    codewords := data[..];
  }

  lemma ZeroBits()
    ensures forall j :: 0 <= j < 8 ==> !Bit(0, j)
  {}

  // ---------- Stream layout ----------

  /** Mode indicator, character count and data of one segment. */
  function SegmentBits(seg: Segment, ver: int): (b: seq<bool>)
    requires IsVersion(ver)
    ensures |b| == 4 + seg.mode.NumCharCountBits(ver) + |seg.data|
  {
    ToBits(seg.mode.ModeBits(), 4) + ToBits(seg.numChars, seg.mode.NumCharCountBits(ver)) + seg.data
  }

  function StreamBits(segs: seq<Segment>, ver: int): seq<bool>
    requires IsVersion(ver)
  {
    if segs == [] then [] else StreamBits(segs[..|segs| - 1], ver) + SegmentBits(segs[|segs| - 1], ver)
  }

  /** Every character count fits its field. */
  predicate CountsFit(segs: seq<Segment>, ver: int)
    requires IsVersion(ver)
  {
    forall k :: 0 <= k < |segs| ==> segs[k].numChars < Pow2(segs[k].mode.NumCharCountBits(ver))
  }

  lemma {:induction false} StreamGrows(segs: seq<Segment>, k: nat, ver: int)
    requires IsVersion(ver) && k <= |segs|
    ensures |StreamBits(segs[..k], ver)| <= |StreamBits(segs, ver)|
  {
    if k == |segs| {
      assert segs[..k] == segs;
    } else {
      StreamGrows(segs[..|segs| - 1], k, ver);
      assert segs[..|segs| - 1][..k] == segs[..k];
    }
  }

  /** The number of bits of the segments, or -1 if a count does not fit or the sum exceeds an int. */
  method GetTotalBits(segs: seq<Segment>, ver: int) returns (r: int)
    requires IsVersion(ver)
    ensures r == if CountsFit(segs, ver) && |StreamBits(segs, ver)| <= INT_MAX then |StreamBits(segs, ver)| else -1
  {
    hide CountsFit, StreamBits, Pow2;
    var result := 0;
    StreamTake(segs, 0, ver);
    for k := 0 to |segs|
      invariant CountsFit(segs[..k], ver)
      invariant result == |StreamBits(segs[..k], ver)| <= INT_MAX
    {
      var seg := segs[k];
      var ccbits := seg.mode.NumCharCountBits(ver);
      StreamGrows(segs, k + 1, ver);
      StreamTake(segs, k, ver);
      if seg.numChars >= Pow2(ccbits) {
        return -1;
      }
      if 4 + ccbits > INT_MAX - result {
        return -1;
      }
      result := result + 4 + ccbits;
      if |seg.data| > INT_MAX - result {
        return -1;
      }
      result := result + |seg.data|;
    }
    assert segs[..|segs|] == segs;
    r := result;
  }

  /** What one more segment adds to the stream and to the condition on the counts. */
  lemma StreamTake(segs: seq<Segment>, k: nat, ver: int)
    requires IsVersion(ver) && k <= |segs|
    ensures StreamBits(segs[..0], ver) == [] && CountsFit(segs[..0], ver)
    ensures k < |segs| ==> StreamBits(segs[..k + 1], ver) == StreamBits(segs[..k], ver) + SegmentBits(segs[k], ver)
    ensures k < |segs| ==>
      (CountsFit(segs[..k + 1], ver) <==>
        CountsFit(segs[..k], ver) && segs[k].numChars < Pow2(segs[k].mode.NumCharCountBits(ver)))
    ensures k < |segs| && segs[k].numChars >= Pow2(segs[k].mode.NumCharCountBits(ver)) ==> !CountsFit(segs, ver)
  {
    hide Pow2, Mode.NumCharCountBits, SegmentBits;
    if k < |segs| {
      assert segs[..k + 1][..k] == segs[..k];
      assert forall n :: 0 <= n < k ==> segs[..k + 1][n] == segs[..k][n];
    }
  }

  /** The padding byte with number `n`: 0xEC and 0x11 in turn. */
  function PadByte(n: nat): nat {
    if n % 2 == 0 then 0xEC else 0x11
  }

  lemma PadByteNext(n: nat)
    ensures PadByte(0) == 0xEC && PadByte(n) < 256 && PadByte(n + 1) == if PadByte(n) == 0xEC then 0x11 else 0xEC
  {}

  /** The first `n` padding bytes. */
  function PadBytes(n: nat): (b: seq<bool>)
    ensures |b| == 8 * n
  {
    if n == 0 then [] else PadBytes(n - 1) + ToBits(PadByte(n - 1), 8)
  }

  lemma AlignmentFits(used: nat, capacity: nat)
    requires used <= capacity && capacity % 8 == 0
    ensures var alignment := (8 - used % 8) % 8;
      used + alignment <= capacity && 8 * ((capacity - used - alignment) / 8) == capacity - used - alignment
      && (used + alignment) % 8 == 0
  {
    var q, m, c := used / 8, used % 8, capacity / 8;
    assert used == 8 * q + m && capacity == 8 * c;
    var alignment := (8 - m) % 8;
    if m == 0 {
      assert alignment == 0;
    } else {
      assert alignment == 8 - m && used + alignment == 8 * (q + 1);
    }
  }

  /** What follows `used` bits of data in a symbol of `capacity` bits: a terminator of four zero bits, cut short at the
      end of the symbol, zero bits up to a byte boundary, and padding bytes. */
  function Padding(used: nat, capacity: nat): (b: seq<bool>)
    requires used <= capacity && capacity % 8 == 0
    ensures |b| == capacity - used
  {
    var terminator := if capacity - used < 4 then capacity - used else 4;
    var alignment := (8 - (used + terminator) % 8) % 8;
    AlignmentFits(used + terminator, capacity);
    ToBits(0, terminator) + ToBits(0, alignment) + PadBytes((capacity - used - terminator - alignment) / 8)
  }

  datatype EncodeError = InvalidValue | TooLong

  datatype Encoded = Encoded(version: int, ecl: Ecc, dataCodewords: seq<bv8>)

  /** The segments fit a symbol of this version and level. */
  predicate Fits(segs: seq<Segment>, ver: int, ecl: Ecc)
    requires IsVersion(ver)
  {
    CountsFit(segs, ver) && |StreamBits(segs, ver)| <= NumDataCodewords(ver, ecl) * 8
  }

  lemma PadBytesUnfold(n: nat)
    ensures PadBytes(0) == [] && PadBytes(n + 1) == PadBytes(n) + ToBits(PadByte(n), 8)
  {
    hide ToBits;
  }

  lemma PaddingUnfold(used: nat, capacity: nat)
    requires used <= capacity && capacity % 8 == 0
    ensures var terminator := if capacity - used < 4 then capacity - used else 4;
      var alignment := (8 - (used + terminator) % 8) % 8;
      Padding(used, capacity) ==
        ToBits(0, terminator) + ToBits(0, alignment) + PadBytes((capacity - used - terminator - alignment) / 8)
  {
    hide ToBits;
  }

  lemma RoomForByte(start: nat, capacity: nat, n: nat)
    requires start % 8 == 0 && capacity % 8 == 0 && start + 8 * n < capacity
    ensures start + 8 * (n + 1) <= capacity
  {}

  lemma ByteCount(start: nat, capacity: nat, n: nat)
    requires start + 8 * n == capacity
    ensures (capacity - start) / 8 == n
  {}

  /** Appends padding bytes up to the capacity. */
  method AppendPadBytes(bb: BitBuffer, dataCapacityBits: nat)
    requires |bb.bits| <= dataCapacityBits && dataCapacityBits % 8 == 0 && |bb.bits| % 8 == 0
    modifies bb
    ensures bb.bits == old(bb.bits) + PadBytes((dataCapacityBits - |old(bb.bits)|) / 8)
  {
    hide *;
    SmallPowers();
    ghost var start := bb.bits;
    ghost var n := 0;
    PadByteNext(n);
    PadBytesUnfold(n);
    var padByte: nat := 0xEC;
    while |bb.bits| < dataCapacityBits
      invariant |start| % 8 == 0 && |start| + 8 * n <= dataCapacityBits
      invariant bb.bits == start + PadBytes(n)
      invariant padByte == PadByte(n)
    {
      PadBytesUnfold(n);
      RoomForByte(|start|, dataCapacityBits, n);
      PadByteNext(n);
      var ok := bb.AppendBits(padByte, 8);
      padByte := if padByte == 0xEC then 0x11 else 0xEC;
      n := n + 1;
    }
    ByteCount(|start|, dataCapacityBits, n);
  }

  /** Appends terminator, alignment and padding bytes to the data bits. */
  method AppendPadding(bb: BitBuffer, dataCapacityBits: nat)
    requires |bb.bits| <= dataCapacityBits && dataCapacityBits % 8 == 0
    modifies bb
    ensures bb.bits == old(bb.bits) + Padding(|old(bb.bits)|, dataCapacityBits)
  {
    hide *;
    SmallPowers();
    ghost var used := bb.bits;
    PaddingUnfold(|used|, dataCapacityBits);
    var terminator := if dataCapacityBits - |bb.bits| < 4 then dataCapacityBits - |bb.bits| else 4;
    var ok := bb.AppendBits(0, terminator);
    var alignment := (8 - |bb.bits| % 8) % 8;
    ok := bb.AppendBits(0, alignment);
    AlignmentFits(|used| + terminator, dataCapacityBits);
    ghost var start := bb.bits;
    AppendPadBytes(bb, dataCapacityBits);
    assert start == used + (ToBits(0, terminator) + ToBits(0, alignment));
  }

  /** Finds the smallest version in the range that has room for the segments; -1 if there is none. */
  method FindVersion(segs: seq<Segment>, ecl: Ecc, minVersion: int, maxVersion: int) returns (version: int)
    requires MIN_VERSION <= minVersion <= maxVersion <= MAX_VERSION
    ensures version == -1 || minVersion <= version <= maxVersion
    ensures version != -1 ==> Fits(segs, version, ecl)
    ensures forall v :: minVersion <= v <= maxVersion && (version == -1 || v < version) ==> !Fits(segs, v, ecl)
  {
    hide NumDataCodewords, StreamBits, CountsFit;
    version := minVersion;
    while true
      invariant minVersion <= version <= maxVersion
      invariant forall v :: minVersion <= v < version ==> !Fits(segs, v, ecl)
      decreases maxVersion - version
    {
      CapacityBounded(version, ecl);
      var dataCapacityBits := NumDataCodewords(version, ecl) * 8;
      var dataUsedBits := GetTotalBits(segs, version);
      if dataUsedBits != -1 && dataUsedBits <= dataCapacityBits {
        return version;
      }
      if version >= maxVersion {
        return -1;
      }
      version := version + 1;
    }
  }

  /** Raises the correction level while the data still fits. */
  method BoostLevel(segs: seq<Segment>, version: int, ecl0: Ecc, dataUsedBits: nat) returns (ecl: Ecc)
    requires IsVersion(version) && Fits(segs, version, ecl0) && dataUsedBits == |StreamBits(segs, version)|
    ensures Fits(segs, version, ecl) && Rank(ecl) >= Rank(ecl0)
    ensures forall e: Ecc :: Rank(e) > Rank(ecl) ==> !Fits(segs, version, e)
  {
    hide NumDataCodewords, StreamBits, CountsFit;
    ecl := ecl0;
    var levels := [MEDIUM, QUARTILE, HIGH];
    for k := 0 to 3
      invariant Fits(segs, version, ecl)
      invariant forall e: Ecc :: 1 <= Rank(e) <= k && Rank(e) > Rank(ecl) ==> !Fits(segs, version, e)
    {
      if dataUsedBits <= NumDataCodewords(version, levels[k]) * 8 {
        ecl := levels[k];
      }
    }
  }

  /** Concatenates the segments' bits. */
  method AppendSegments(bb: BitBuffer, segs: seq<Segment>, version: int)
    requires IsVersion(version) && CountsFit(segs, version) && bb.bits == []
    modifies bb
    ensures bb.bits == StreamBits(segs, version)
  {
    hide StreamBits, ToBits, Pow2;
    SmallPowers();
    StreamTake(segs, 0, version);
    for k := 0 to |segs|
      invariant bb.bits == StreamBits(segs[..k], version)
    {
      StreamTake(segs, k, version);
      var seg := segs[k];
      var ok := bb.AppendBits(seg.mode.ModeBits(), 4);
      assert ok;
      ok := bb.AppendBits(seg.numChars, seg.mode.NumCharCountBits(version));
      assert ok;
      bb.AppendAll(seg.data);
    }
    assert segs[..|segs|] == segs;
  }

  /** Builds the data codewords of the smallest symbol in the version range, at the highest correction level that
      version still has room for if `boostEcl` is set. */
  method EncodeSegments(segs: seq<Segment>, ecl0: Ecc, minVersion: int, maxVersion: int, mask: int, boostEcl: bool)
    returns (r: Result<Encoded, EncodeError>)
    ensures EncodesAs(segs, ecl0, minVersion, maxVersion, mask, boostEcl, r)
  {
    if !(MIN_VERSION <= minVersion && minVersion <= maxVersion && maxVersion <= MAX_VERSION) || mask < -1 || mask > 7 {
      return Err(InvalidValue);
    }
    hide *;
    VersionRange();
    var version := FindVersion(segs, ecl0, minVersion, maxVersion);
    if version == -1 {
      TooLongIntro(segs, ecl0, minVersion, maxVersion, mask, boostEcl);
      return Err(TooLong);
    }
    var e := EncodeAt(segs, version, ecl0, boostEcl);
    OkIntro(segs, ecl0, minVersion, maxVersion, mask, boostEcl, e);
    r := Ok(e);
  }

  /** Builds the data codewords of a symbol of a version that has room. */
  method EncodeAt(segs: seq<Segment>, version: int, ecl0: Ecc, boostEcl: bool) returns (e: Encoded)
    requires IsVersion(version) && Fits(segs, version, ecl0)
    ensures e.version == version && IsEncoding(segs, e)
    ensures if boostEcl then Rank(e.ecl) >= Rank(ecl0) && Fits(segs, version, e.ecl) else e.ecl == ecl0
    ensures boostEcl ==> forall l: Ecc :: Rank(l) > Rank(e.ecl) ==> !Fits(segs, version, l)
  {
    hide *;
    FitsMeans(segs, version, ecl0);
    var bb := new BitBuffer();
    AppendSegments(bb, segs, version);
    var ecl := ecl0;
    if boostEcl {
      ecl := BoostLevel(segs, version, ecl0, |bb.bits|);
    }
    CapacityBounded(version, ecl);
    FitsMeans(segs, version, ecl);
    AppendPadding(bb, NumDataCodewords(version, ecl) * 8);
    var dataCodewords := PackBytes(bb.bits);
    e := Encoded(version, ecl, dataCodewords);
    DataFillsIntro(dataCodewords, StreamBits(segs, version), NumDataCodewords(version, ecl) * 8);
    EncodingIntro(segs, version, ecl, dataCodewords);
  }

  /** What the encoder promises: it refuses bad arguments; it gives up only if no version has room; otherwise the symbol
      holds the segments, no smaller version has room for them, and the level is the one asked for or the strongest. */
  ghost predicate EncodesAs(segs: seq<Segment>, ecl0: Ecc, minVersion: int, maxVersion: int, mask: int, boostEcl: bool,
                            r: Result<Encoded, EncodeError>)
  {
    var valid := MIN_VERSION <= minVersion <= maxVersion <= MAX_VERSION && -1 <= mask <= 7;
    match r
    case Err(InvalidValue) => !valid
    case Err(TooLong) => valid && forall v :: minVersion <= v <= maxVersion ==> !Fits(segs, v, ecl0)
    case Ok(e) =>
      && valid && IsEncoding(segs, e)
      && minVersion <= e.version <= maxVersion
      && Fits(segs, e.version, ecl0)
      && (forall v :: minVersion <= v < e.version ==> !Fits(segs, v, ecl0))
      && (if boostEcl then IsStrongest(segs, e.version, ecl0, e.ecl) else e.ecl == ecl0)
  }

  lemma TooLongIntro(segs: seq<Segment>, ecl0: Ecc, minVersion: int, maxVersion: int, mask: int, boostEcl: bool)
    requires MIN_VERSION <= minVersion <= maxVersion <= MAX_VERSION && -1 <= mask <= 7
    requires forall v :: minVersion <= v <= maxVersion ==> IsVersion(v) && !Fits(segs, v, ecl0)
    ensures EncodesAs(segs, ecl0, minVersion, maxVersion, mask, boostEcl, Err(TooLong))
  {
    hide Fits;
  }

  lemma OkIntro(segs: seq<Segment>, ecl0: Ecc, minVersion: int, maxVersion: int, mask: int, boostEcl: bool, e: Encoded)
    requires MIN_VERSION <= minVersion <= maxVersion <= MAX_VERSION && -1 <= mask <= 7
    requires minVersion <= e.version <= maxVersion && IsVersion(e.version) && IsEncoding(segs, e)
      && Fits(segs, e.version, ecl0)
    requires forall v :: minVersion <= v < e.version ==> IsVersion(v) && !Fits(segs, v, ecl0)
    requires if boostEcl then Rank(e.ecl) >= Rank(ecl0) && Fits(segs, e.version, e.ecl) else e.ecl == ecl0
    requires boostEcl ==> forall l: Ecc :: Rank(l) > Rank(e.ecl) ==> !Fits(segs, e.version, l)
    ensures EncodesAs(segs, ecl0, minVersion, maxVersion, mask, boostEcl, Ok(e))
  {
    hide Fits, IsEncoding;
  }

  lemma VersionRange()
    ensures forall v :: IsVersion(v) <==> MIN_VERSION <= v <= MAX_VERSION
  {}

  lemma FitsMeans(segs: seq<Segment>, ver: int, ecl: Ecc)
    requires IsVersion(ver)
    ensures Fits(segs, ver, ecl) <==> CountsFit(segs, ver) && |StreamBits(segs, ver)| <= NumDataCodewords(ver, ecl) * 8
  {}

  ghost predicate DataFills(dataCodewords: seq<bv8>, stream: seq<bool>) {
    var capacity := 8 * |dataCodewords|;
    |stream| <= capacity && CodewordBits(dataCodewords) == stream + Padding(|stream|, capacity)
  }

  lemma DataFillsIntro(dataCodewords: seq<bv8>, stream: seq<bool>, capacity: nat)
    requires capacity % 8 == 0 && |stream| <= capacity
    requires CodewordBits(dataCodewords) == stream + Padding(|stream|, capacity)
    ensures 8 * |dataCodewords| == capacity && DataFills(dataCodewords, stream)
  {
    hide Padding, CodewordBits;
  }

  lemma EncodingIntro(segs: seq<Segment>, ver: int, ecl: Ecc, codewords: seq<bv8>)
    requires IsVersion(ver) && Fits(segs, ver, ecl) && |codewords| == NumDataCodewords(ver, ecl)
    requires DataFills(codewords, StreamBits(segs, ver))
    ensures IsEncoding(segs, Encoded(ver, ecl, codewords))
  {
    hide StreamBits, NumDataCodewords, DataFills;
  }

  /** The strongest level with room for the segments, and no weaker than the one asked for. */
  ghost predicate IsStrongest(segs: seq<Segment>, version: int, asked: Ecc, ecl: Ecc)
    requires IsVersion(version)
  {
    && Rank(ecl) >= Rank(asked) && Fits(segs, version, ecl)
    && forall e: Ecc :: Rank(e) > Rank(ecl) ==> !Fits(segs, version, e)
  }

  /** The data codewords are the segments' bits followed by the padding of the chosen capacity. */
  ghost predicate IsEncoding(segs: seq<Segment>, e: Encoded) {
    && IsVersion(e.version)
    && |e.dataCodewords| == NumDataCodewords(e.version, e.ecl)
    && CountsFit(segs, e.version)
    && DataFills(e.dataCodewords, StreamBits(segs, e.version))
  }
}
