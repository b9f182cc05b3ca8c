/** The UTF-32 codec of utfx: one unit per scalar value, in either byte
    order. */
module Utf32Codec {
  import opened Unicode

  type Unit = bv32

  /** 0 for a unit that is a scalar value in native order, -1 otherwise;
      no UTF-32 unit has continuation units. */
  function TrailLength(c: Unit): (r: int)
    ensures r == 0 <==> IsValidCodepoint(c)
    ensures r == -1 <==> !IsValidCodepoint(c)
  {
    if IsValidCodepoint(c) then 0 else -1
  }

  predicate IsTrail(c: Unit) {
    false
  }

  predicate IsLead(c: Unit) {
    true
  }

  /** UTF-32 has no continuation units: every unit counts as a lead, even
      one whose trail length marks it as no scalar value. */
  lemma EveryUnitLeads(c: Unit)
    ensures IsLead(c) && !IsTrail(c)
    ensures IsLead(c) && TrailLength(c) < 0 <==> !IsValidCodepoint(c)
  {
  }

  /** Number of units Encode writes. */
  function Width(u: Codepoint): (r: nat)
    ensures r == 1
  {
    1
  }

  /** Swaps the bytes of every unit. */
  function SwapAll(s: seq<Unit>): (r: seq<Unit>)
    ensures |r| == |s| && forall i | 0 <= i < |s| :: r[i] == Swap32(s[i])
  {
    seq(|s|, i requires 0 <= i < |s| => Swap32(s[i]))
  }

  /** Decodes the unit at p, stored in byte order e: Incomplete at the end
      of the buffer, Illegal for a unit that is not a scalar value. */
  function Decode(buf: seq<Unit>, p: nat, e: Endian): (d: Decoded)
    requires p <= |buf|
    ensures p == |buf| ==> d == Decoded(Incomplete, p)
    ensures p < |buf| ==> d.next == p + 1
    ensures !IsSentinel(d.cp) ==> IsValidCodepoint(d.cp)
  {
    if p == |buf| then Decoded(Incomplete, p)
    else
      var c := Order32(buf[p], e);
      if !IsValidCodepoint(c) then Decoded(Illegal, p + 1)
      else Decoded(c, p + 1)
  }

  /** Decodes a unit known to be valid: only the byte order is applied. */
  function DecodeValid(buf: seq<Unit>, p: nat, e: Endian): (d: Decoded)
    requires p < |buf|
    ensures d.next == p + 1
  {
    Decoded(Order32(buf[p], e), p + 1)
  }

  /** Encodes u as one unit in byte order e; nothing is checked. */
  function Encode(u: Codepoint, e: Endian): (r: seq<Unit>)
    ensures |r| == Width(u) && Order32(r[0], e) == u
  {
    Order32Involutive(u, e);
    [Order32(u, e)]
  }

  /** Every scalar value, encoded in either byte order and placed anywhere
      in a buffer, decodes back to itself. */
  lemma DecodeEncode(u: Codepoint, e: Endian, prefix: seq<Unit>, suffix: seq<Unit>)
    requires IsValidCodepoint(u)
    ensures Decode(prefix + Encode(u, e) + suffix, |prefix|, e) == Decoded(u, |prefix| + 1)
  {
    assert (prefix + Encode(u, e) + suffix)[|prefix|] == Encode(u, e)[0];
  }

  /** Whatever Decode accepts is the value's own encoding. */
  lemma DecodeCanonical(buf: seq<Unit>, p: nat, e: Endian)
    requires p <= |buf|
    ensures !IsSentinel(Decode(buf, p, e).cp) ==>
              buf[p..Decode(buf, p, e).next] == Encode(Decode(buf, p, e).cp, e)
  {
    if p < |buf| {
      Order32Involutive(buf[p], e);
      assert buf[p..p + 1] == [buf[p]];
    }
  }

  /** Decode succeeds exactly on a unit whose native value is a scalar
      value. */
  lemma DecodeSucceedsIff(buf: seq<Unit>, p: nat, e: Endian)
    requires p <= |buf|
    ensures !IsSentinel(Decode(buf, p, e).cp) <==> p < |buf| && TrailLength(Order32(buf[p], e)) == 0
  {
    if p < |buf| {
      SentinelsAreNotValid(Order32(buf[p], e));
    }
  }

  /** On a unit Decode accepts, the unchecked decoder yields the same. */
  lemma DecodeValidAgrees(buf: seq<Unit>, p: nat, e: Endian)
    requires p < |buf| && !IsSentinel(Decode(buf, p, e).cp)
    ensures DecodeValid(buf, p, e) == Decode(buf, p, e)
  {
  }

  /** Encoding in the opposite byte order swaps the unit. */
  lemma EncodeOpposite(u: Codepoint, e: Endian)
    ensures Encode(u, Opposite(e)) == SwapAll(Encode(u, e))
  {
    Order32Opposite(u, e);
    Swap32Involutive(u);
  }

  /** Swapping every unit and reading in the opposite byte order decodes
      exactly as before. */
  lemma DecodeOpposite(buf: seq<Unit>, p: nat, e: Endian)
    requires p <= |buf|
    ensures Decode(SwapAll(buf), p, Opposite(e)) == Decode(buf, p, e)
  {
    if p < |buf| {
      var sw := SwapAll(buf);
      Order32Opposite(sw[p], e);
      Swap32Involutive(buf[p]);
    }
  }
}
