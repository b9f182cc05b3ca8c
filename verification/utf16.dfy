/** The UTF-16 codec of utfx (RFC 2781): surrogate pairs, code units in
    either byte order. */
module Utf16Codec {
  import opened Unicode

  type Unit = bv16

  predicate IsFirstSurrogate(x: Unit) {
    0xD800 <= x <= 0xDBFF
  }

  predicate IsSecondSurrogate(x: Unit) {
    0xDC00 <= x <= 0xDFFF
  }

  /** The supplementary-plane scalar value a surrogate pair stands for: the
      ten low bits of each unit, high unit first, offset by 0x10000. The
      result is a valid scalar value whatever the units are (the halves
      can be read back from it: CombineThenSplit). */
  function CombineSurrogate(w1: Unit, w2: Unit): (c: Codepoint)
    ensures 0x1_0000 <= c <= 0x10FFFF
  {
    ((((w1 & 0x3FF) as Codepoint) << 10) | ((w2 & 0x3FF) as Codepoint)) + 0x1_0000
  }

  /** How many units follow a unit in native order: 1 after a high
      surrogate, -1 (not a lead unit) for a low surrogate, 0 otherwise. */
  function TrailLength(v: Unit): (r: int)
    ensures r == 1 <==> IsFirstSurrogate(v)
    ensures r == -1 <==> IsSecondSurrogate(v)
    ensures r == 0 <==> !(0xD800 <= v <= 0xDFFF)
  {
    if IsFirstSurrogate(v) then 1
    else if IsSecondSurrogate(v) then -1
    else 0
  }

  predicate IsTrail(c: Unit) {
    IsSecondSurrogate(c)
  }

  predicate IsLead(c: Unit) {
    !IsSecondSurrogate(c)
  }

  /** The two halves of the surrogate range by their top six bits:
      110110 for a high surrogate, 110111 for a low one. */
  lemma SurrogateBits(x: Unit)
    ensures IsFirstSurrogate(x) <==> x >> 10 == 0x36
    ensures IsSecondSurrogate(x) <==> x >> 10 == 0x37
  {
  }

  /** A lead unit is one with a non-negative trail length; a trail unit
      is one that announces nothing. */
  lemma LeadAndTrailUnits(x: Unit)
    ensures IsTrail(x) <==> TrailLength(x) == -1
    ensures IsLead(x) <==> TrailLength(x) >= 0
  {
  }

  /** Number of units Encode writes for u. */
  function Width(u: Codepoint): (r: nat)
    ensures r == 2 <==> u >= 0x1_0000
    ensures r == 1 <==> u < 0x1_0000
  {
    if u >= 0x1_0000 then 2 else 1
  }

  /** A unit read as a codepoint (zero-extended). */
  function Widen(w: Unit): Codepoint {
    w as Codepoint
  }

  /** Truncation of a 32-bit value to a 16-bit unit. */
  function Lo16(x: bv32): Unit {
    (x & 0xFFFF) as Unit
  }

  /** Swaps the bytes of every unit. */
  function SwapAll(s: seq<Unit>): (r: seq<Unit>)
    ensures |r| == |s| && forall i | 0 <= i < |s| :: r[i] == Swap16(s[i])
  {
    seq(|s|, i requires 0 <= i < |s| => Swap16(s[i]))
  }

  // ---------------------------------------------------------------------
  // Decoding

  /** Decodes the units starting at p, stored in byte order e. A high
      surrogate must be followed by a low one; a lone low surrogate is
      Illegal; a high surrogate as the last unit is Incomplete. */
  function Decode(buf: seq<Unit>, p: nat, e: Endian): (d: Decoded)
    requires p <= |buf|
    ensures p == |buf| ==> d == Decoded(Incomplete, p)
    ensures p < |buf| ==> p < d.next <= p + 2 && d.next <= |buf|
    ensures d.cp == Incomplete ==> d.next == |buf|
    ensures !IsSentinel(d.cp) ==> IsValidCodepoint(d.cp) && d.next - p == Width(d.cp)
  {
    if p == |buf| then Decoded(Incomplete, p)
    else
      var w1 := Order16(buf[p], e);
      if w1 < 0xD800 || 0xDFFF < w1 then Decoded(Widen(w1), p + 1)
      else if w1 > 0xDBFF then Decoded(Illegal, p + 1)
      else if p + 1 == |buf| then Decoded(Incomplete, p + 1)
      else
        var w2 := Order16(buf[p + 1], e);
        if w2 < 0xDC00 || 0xDFFF < w2 then Decoded(Illegal, p + 2)
        else Decoded(CombineSurrogate(w1, w2), p + 2)
  }

  /** Decodes input known to be well formed: the unit after a surrogate
      is combined with it unchecked, and that second unit is taken as it
      is stored, without the byte swap the first unit gets. */
  function DecodeValid(buf: seq<Unit>, p: nat, e: Endian): (d: Decoded)
    requires p < |buf|
    requires 0xD800 <= Order16(buf[p], e) <= 0xDFFF ==> p + 1 < |buf|
    ensures d.next == p + (if 0xD800 <= Order16(buf[p], e) <= 0xDFFF then 2 else 1)
  {
    var w1 := Order16(buf[p], e);
    if w1 < 0xD800 || 0xDFFF < w1 then Decoded(Widen(w1), p + 1)
    else Decoded(CombineSurrogate(w1, buf[p + 1]), p + 2)
  }

  /** DecodeValid with the byte swap applied to both units. */
  function DecodeValidSwapped(buf: seq<Unit>, p: nat, e: Endian): (d: Decoded)
    requires p < |buf|
    requires 0xD800 <= Order16(buf[p], e) <= 0xDFFF ==> p + 1 < |buf|
    ensures d.next == p + (if 0xD800 <= Order16(buf[p], e) <= 0xDFFF then 2 else 1)
  {
    var w1 := Order16(buf[p], e);
    if w1 < 0xD800 || 0xDFFF < w1 then Decoded(Widen(w1), p + 1)
    else Decoded(CombineSurrogate(w1, Order16(buf[p + 1], e)), p + 2)
  }

  // ---------------------------------------------------------------------
  // Encoding

  /** Encodes u in byte order e: one unit up to U+FFFF, otherwise a
      surrogate pair. Nothing is checked; values past U+10FFFF are
      truncated to 16 bits, as the static_cast does. */
  function Encode(u: Codepoint, e: Endian): (r: seq<Unit>)
    ensures |r| == Width(u)
    ensures 0x1_0000 <= u <= 0x10FFFF ==>
              IsFirstSurrogate(Order16(r[0], e)) && IsSecondSurrogate(Order16(r[1], e))
  {
    if u <= 0xFFFF then
      [Order16(Lo16(u), e)]
    else
      Order16Involutive(HighHalf(u), e);
      Order16Involutive(LowHalf(u), e);
      SurrogateHalves(u);
      [Order16(HighHalf(u), e), Order16(LowHalf(u), e)]
  }

  /** The high surrogate of a supplementary value (truncated to 16 bits). */
  function HighHalf(u: Codepoint): Unit
    requires u >= 0x1_0000
  {
    Lo16(0xD800 | ((u - 0x1_0000) >> 10))
  }

  /** The low surrogate of a supplementary value. */
  function LowHalf(u: Codepoint): Unit
    requires u >= 0x1_0000
  {
    Lo16(0xDC00 | ((u - 0x1_0000) & 0x3FF))
  }

  lemma SurrogateHalves(u: Codepoint)
    requires u >= 0x1_0000
    ensures u <= 0x10FFFF ==> IsFirstSurrogate(HighHalf(u)) && IsSecondSurrogate(LowHalf(u))
  {
  }

  // ---------------------------------------------------------------------
  // Bit-level facts

  /** A unit widened to 32 bits and truncated back is unchanged. */
  lemma WidenNarrow(w: Unit)
    ensures Lo16(Widen(w)) == w
  {
  }

  /** A BMP value truncated to 16 bits and widened back is unchanged. */
  lemma NarrowWiden(u: Codepoint)
    requires u <= 0xFFFF
    ensures Widen(Lo16(u)) == u
  {
  }

  /** Splitting a supplementary value into a pair and combining the pair
      gives the value back. */
  lemma SplitThenCombine(u: Codepoint)
    requires 0x1_0000 <= u <= 0x10FFFF
    ensures CombineSurrogate(HighHalf(u), LowHalf(u)) == u
  {
  }

  /** Combining a surrogate pair and splitting the result gives the pair
      back. */
  lemma CombineThenSplit(w1: Unit, w2: Unit)
    requires IsFirstSurrogate(w1) && IsSecondSurrogate(w2)
    ensures HighHalf(CombineSurrogate(w1, w2)) == w1 && LowHalf(CombineSurrogate(w1, w2)) == w2
  {
  }

  // Decode and Encode on explicit units, kept apart from the bit-level
  // facts.

  lemma DecodeSingle(buf: seq<Unit>, p: nat, e: Endian, w: Unit)
    requires p < |buf| && Order16(buf[p], e) == w && (w < 0xD800 || 0xDFFF < w)
    ensures Decode(buf, p, e) == Decoded(Widen(w), p + 1)
  {
  }

  lemma DecodePair(buf: seq<Unit>, p: nat, e: Endian, w1: Unit, w2: Unit)
    requires p + 1 < |buf| && Order16(buf[p], e) == w1 && Order16(buf[p + 1], e) == w2
    requires IsFirstSurrogate(w1) && IsSecondSurrogate(w2)
    ensures Decode(buf, p, e) == Decoded(CombineSurrogate(w1, w2), p + 2)
  {
  }

  lemma EncodeSingle(u: Codepoint, e: Endian)
    requires u <= 0xFFFF
    ensures Encode(u, e) == [Order16(Lo16(u), e)]
  {
  }

  lemma EncodePair(u: Codepoint, e: Endian)
    requires u > 0xFFFF
    ensures Encode(u, e) == [Order16(HighHalf(u), e), Order16(LowHalf(u), e)]
  {
  }

  // ---------------------------------------------------------------------
  // Round trips

  /** Every scalar value, encoded in either byte order and placed anywhere
      in a buffer, decodes back to itself and consumes exactly its
      encoding. */
  lemma DecodeEncode(u: Codepoint, e: Endian, prefix: seq<Unit>, suffix: seq<Unit>)
    requires IsValidCodepoint(u)
    ensures Decode(prefix + Encode(u, e) + suffix, |prefix|, e) == Decoded(u, |prefix| + Width(u))
  {
    var buf := prefix + Encode(u, e) + suffix;
    var p := |prefix|;
    assert buf[p] == Encode(u, e)[0];
    if u <= 0xFFFF {
      EncodeSingle(u, e);
      Order16Involutive(Lo16(u), e);
      NarrowWiden(u);
      DecodeSingle(buf, p, e, Lo16(u));
    } else {
      assert buf[p + 1] == Encode(u, e)[1];
      EncodePair(u, e);
      Order16Involutive(HighHalf(u), e);
      Order16Involutive(LowHalf(u), e);
      SurrogateHalves(u);
      DecodePair(buf, p, e, HighHalf(u), LowHalf(u));
      SplitThenCombine(u);
    }
  }

  /** Whatever Decode accepts it reads from the value's own encoding:
      every successfully decoded stretch of units is canonical. */
  lemma DecodeCanonical(buf: seq<Unit>, p: nat, e: Endian)
    requires p <= |buf|
    ensures !IsSentinel(Decode(buf, p, e).cp) ==>
              buf[p..Decode(buf, p, e).next] == Encode(Decode(buf, p, e).cp, e)
  {
    if p < |buf| && !IsSentinel(Decode(buf, p, e).cp) {
      var w1 := Order16(buf[p], e);
      Order16Involutive(buf[p], e);
      if w1 < 0xD800 || 0xDFFF < w1 {
        DecodeSingle(buf, p, e, w1);
        EncodeSingle(Widen(w1), e);
        WidenNarrow(w1);
        assert buf[p..p + 1] == [buf[p]];
      } else {
        var w2 := Order16(buf[p + 1], e);
        Order16Involutive(buf[p + 1], e);
        DecodePair(buf, p, e, w1, w2);
        EncodePair(CombineSurrogate(w1, w2), e);
        CombineThenSplit(w1, w2);
        assert buf[p..p + 2] == [buf[p], buf[p + 1]];
      }
    }
  }

  // ---------------------------------------------------------------------
  // Error outcomes

  /** A low surrogate with no high surrogate before it is Illegal. */
  lemma LoneLowSurrogateIsIllegal(buf: seq<Unit>, p: nat, e: Endian)
    requires p < |buf| && IsSecondSurrogate(Order16(buf[p], e))
    ensures Decode(buf, p, e) == Decoded(Illegal, p + 1)
  {
  }

  /** A high surrogate as the last unit is Incomplete. */
  lemma HighSurrogateAtEndIsIncomplete(buf: seq<Unit>, e: Endian)
    requires |buf| > 0 && IsFirstSurrogate(Order16(buf[|buf| - 1], e))
    ensures Decode(buf, |buf| - 1, e) == Decoded(Incomplete, |buf|)
  {
  }

  /** The units decode refuses on their own, after one unit, are exactly
      the trail units. */
  lemma TrailUnitsAreRefused(buf: seq<Unit>, p: nat, e: Endian)
    requires p < |buf|
    ensures IsTrail(Order16(buf[p], e)) <==> Decode(buf, p, e) == Decoded(Illegal, p + 1)
  {
  }

  /** A high surrogate followed by anything but a low surrogate is Illegal,
      and both units are consumed. */
  lemma UnpairedHighSurrogateIsIllegal(buf: seq<Unit>, p: nat, e: Endian)
    requires p + 1 < |buf| && IsFirstSurrogate(Order16(buf[p], e))
    requires !IsSecondSurrogate(Order16(buf[p + 1], e))
    ensures Decode(buf, p, e) == Decoded(Illegal, p + 2)
  {
  }

  /** Decode fails exactly on the three cases above (and at the end of the
      buffer). */
  lemma DecodeSucceedsIff(buf: seq<Unit>, p: nat, e: Endian)
    requires p <= |buf|
    ensures !IsSentinel(Decode(buf, p, e).cp) <==>
              p < |buf| && (TrailLength(Order16(buf[p], e)) == 0
                || (TrailLength(Order16(buf[p], e)) == 1 && p + 1 < |buf|
                    && IsTrail(Order16(buf[p + 1], e))))
  {
  }

  // ---------------------------------------------------------------------
  // Byte order

  /** Encoding in the opposite byte order swaps every unit. */
  lemma EncodeOpposite(u: Codepoint, e: Endian)
    ensures Encode(u, Opposite(e)) == SwapAll(Encode(u, e))
  {
    if u <= 0xFFFF {
      EncodeSingle(u, e);
      EncodeSingle(u, Opposite(e));
      Order16Opposite(Lo16(u), e);
      Order16Swapped(Lo16(u), e);
    } else {
      EncodePair(u, e);
      EncodePair(u, Opposite(e));
      Order16Opposite(HighHalf(u), e);
      Order16Opposite(LowHalf(u), e);
      Order16Swapped(HighHalf(u), e);
      Order16Swapped(LowHalf(u), e);
    }
  }

  lemma Order16Swapped(w: Unit, e: Endian)
    ensures Order16(Swap16(w), e) == Swap16(Order16(w, e))
  {
  }

  /** Swapping every unit and reading in the opposite byte order decodes
      exactly as before. */
  lemma DecodeOpposite(buf: seq<Unit>, p: nat, e: Endian)
    requires p <= |buf|
    ensures Decode(SwapAll(buf), p, Opposite(e)) == Decode(buf, p, e)
  {
    var sw := SwapAll(buf);
    if p < |buf| {
      Order16Opposite(sw[p], e);
      Swap16Involutive(buf[p]);
      assert Order16(sw[p], Opposite(e)) == Order16(buf[p], e);
      if p + 1 < |buf| {
        Order16Opposite(sw[p + 1], e);
        Swap16Involutive(buf[p + 1]);
        assert Order16(sw[p + 1], Opposite(e)) == Order16(buf[p + 1], e);
      }
      DecodeSameUnits(sw, p, Opposite(e), buf, p, e);
    }
  }

  /** Decode looks only at the units in native order. */
  lemma DecodeSameUnits(a: seq<Unit>, pa: nat, ea: Endian, b: seq<Unit>, pb: nat, eb: Endian)
    requires pa < |a| && pb < |b| && Order16(a[pa], ea) == Order16(b[pb], eb)
    requires (pa + 1 < |a|) == (pb + 1 < |b|)
    requires pa + 1 < |a| ==> Order16(a[pa + 1], ea) == Order16(b[pb + 1], eb)
    ensures Decode(a, pa, ea).cp == Decode(b, pb, eb).cp
    ensures Decode(a, pa, ea).next - pa == Decode(b, pb, eb).next - pb
  {
  }

  // ---------------------------------------------------------------------
  // The unchecked decoder

  /** In native byte order the unchecked decoder agrees with Decode on
      every unit sequence Decode accepts. */
  lemma DecodeValidAgreesNative(buf: seq<Unit>, p: nat)
    requires p < |buf| && !IsSentinel(Decode(buf, p, Native).cp)
    ensures DecodeValid(buf, p, Native) == Decode(buf, p, Native)
  {
  }

  /** In the other byte order it does not: U+1F525 stored big-endian is
      read as U+1F5DD. */
  lemma DecodeValidMisreadsSwapped()
    ensures Decode([0x3DD8, 0x25DD], 0, Big) == Decoded(0x1_F525, 2)
    ensures DecodeValid([0x3DD8, 0x25DD], 0, Big) == Decoded(0x1_F5DD, 2)
    ensures DecodeValidSwapped([0x3DD8, 0x25DD], 0, Big) == Decoded(0x1_F525, 2)
  {
  }

  /** With both units swapped, the unchecked decoder agrees with Decode in
      either byte order. */
  lemma DecodeValidSwappedAgrees(buf: seq<Unit>, p: nat, e: Endian)
    requires p < |buf| && !IsSentinel(Decode(buf, p, e).cp)
    ensures DecodeValidSwapped(buf, p, e) == Decode(buf, p, e)
  {
  }
}
