/** Bit strings, most significant bit first, and the growing bit buffer. */
module Bits {

  function Pow2(n: nat): (p: nat)
    ensures p > 0
  {
    if n == 0 then 1 else 2 * Pow2(n - 1)
  }

  /** The low `len` bits of `val`. */
  function ToBits(val: nat, len: nat): (b: seq<bool>)
    ensures |b| == len
  {
    if len == 0 then [] else ToBits(val / 2, len - 1) + [val % 2 == 1]
  }

  /** The number written by a bit string. */
  function FromBits(b: seq<bool>): nat {
    if b == [] then 0 else 2 * FromBits(b[..|b| - 1]) + (if b[|b| - 1] then 1 else 0)
  }

  lemma {:induction false} BitsRoundTrip(val: nat, len: nat)
    requires val < Pow2(len)
    ensures FromBits(ToBits(val, len)) == val
  {
    if len > 0 {
      BitsRoundTrip(val / 2, len - 1);
      assert ToBits(val, len)[..len - 1] == ToBits(val / 2, len - 1);
    }
  }

  /** The right shift val >> i. */
  function Shr(val: nat, i: nat): nat {
    if i == 0 then val else Shr(val / 2, i - 1)
  }

  lemma {:induction false} ShrHalves(val: nat, i: nat)
    ensures Shr(val, i) / 2 == Shr(val, i + 1)
  {
    if i > 0 {
      ShrHalves(val / 2, i - 1);
    }
  }

  lemma {:induction false} ShrVanishes(val: nat, i: nat)
    ensures Shr(val, i) == 0 <==> val < Pow2(i)
  {
    if i > 0 {
      ShrVanishes(val / 2, i - 1);
    }
  }

  class BitBuffer {
    var bits: seq<bool>

    constructor ()
      ensures bits == []
    {
      bits := [];
    }

    /** Appends the low `len` bits of `val`; refuses (the source throws) unless `val` fits in `len` <= 31 bits. */
    method AppendBits(val: nat, len: int) returns (ok: bool)
      modifies this
      ensures ok <==> 0 <= len <= 31 && val < Pow2(len)
      ensures bits == old(bits) + (if ok then ToBits(val, len) else [])
    {
      if len >= 0 {
        ShrVanishes(val, len);
      }
      if len < 0 || len > 31 || Shr(val, len) != 0 {
        return false;
      }
      var i := len - 1;
      while i >= 0
        invariant -1 <= i < len
        invariant bits == old(bits) + ToBits(Shr(val, i + 1), len - 1 - i)
      {
        ShrHalves(val, i);
        bits := bits + [Shr(val, i) % 2 != 0];
        i := i - 1;
      }
      ok := true;
    }

    /** Appends a whole bit string. */
    method AppendAll(more: seq<bool>)
      modifies this
      ensures bits == old(bits) + more
    {
      bits := bits + more;
    }
  }
}
