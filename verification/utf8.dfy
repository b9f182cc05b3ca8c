/** The UTF-8 codec (RFC 3629, section 3): lead-byte classification, the
    minimal width of a codepoint, the checked and unchecked decoders and the
    encoder. Decoding is byte oriented and takes no byte order. */
module Utf8Codec {
  import opened Unicode

  type Byte = bv8

  /** Number of continuation bytes announced by a lead byte: 0 for ASCII,
      1..3 for the lead bytes 0xC2..0xF4, and -1 for a byte that can never
      start a sequence (a continuation byte, the overlong leads 0xC0 and
      0xC1, and everything above 0xF4). */
  function TrailLength(v: Byte): (r: int)
    ensures -1 <= r <= 3
    ensures r == 0 <==> v < 0x80
    ensures IsTrail(v) ==> r == -1
  {
    if v < 128 then 0
    else if v < 194 then -1
    else if v < 224 then 1
    else if v < 240 then 2
    else if v <= 244 then 3
    else -1
  }

  /** Number of payload values a sequence of n bytes can carry:
      7, 11, 16 and 21 bits. */
  function Capacity(n: nat): nat
    requires 1 <= n <= 4
  {
    match n
    case 1 => 0x80
    case 2 => 0x800
    case 3 => 0x1_0000
    case 4 => 0x20_0000
  }

  /** The minimal number of bytes that encode v: the shortest sequence
      whose payload holds v. */
  function Width(v: Codepoint): (r: nat)
    ensures 1 <= r <= 4
  {
    if v < 0x80 then 1
    else if v < 0x800 then 2
    else if v < 0x1_0000 then 3
    else 4
  }

  /** Width is the minimal width: v fits the payload of Width(v) bytes
      (when it fits four at all) and does not fit one byte fewer. */
  lemma WidthIsMinimal(v: Codepoint)
    ensures v as int < Capacity(4) ==> v as int < Capacity(Width(v))
    ensures Width(v) > 1 ==> Capacity(Width(v) - 1) <= v as int
  {
  }

  /** A continuation byte, 10xxxxxx. */
  predicate IsTrail(v: Byte) {
    (v & 0xC0) == 0x80
  }

  predicate IsLead(v: Byte) {
    !IsTrail(v)
  }

  /** The mask test read as a range: the continuation bytes are 0x80..0xBF.
      Every other byte counts as a lead, although C0, C1 and F5..FF
      announce no sequence at all. */
  lemma LeadAndTrailBytes(v: Byte)
    ensures IsTrail(v) <==> 0x80 <= v <= 0xBF
    ensures IsLead(v) <==> TrailLength(v) >= 0 || v == 0xC0 || v == 0xC1 || v >= 0xF5
  {
  }

  /** The payload bits of a lead byte announcing trailLen continuation
      bytes: its low 6 - trailLen bits. */
  function LeadMask(trailLen: int): Codepoint
    requires 1 <= trailLen <= 3
  {
    if trailLen == 1 then 0x1F else if trailLen == 2 then 0x0F else 0x07
  }

  lemma LeadMaskIsLowBits(trailLen: int)
    requires 1 <= trailLen <= 3
    ensures LeadMask(trailLen) == (1 << (6 - trailLen)) - 1
  {
  }

  /** Checked decoding of one codepoint starting at index p. Empty input
      gives Incomplete; a byte that cannot lead gives Illegal after one
      byte; otherwise the continuation bytes are folded in, and the value is
      refused when it is not a scalar value or is overlong. */
  function Decode(buf: seq<Byte>, p: nat): (d: Decoded)
    requires p <= |buf|
    ensures p == |buf| ==> d == Decoded(Incomplete, p)
    ensures p < |buf| ==> p < d.next <= p + 4 && d.next <= |buf|
    ensures p < |buf| && TrailLength(buf[p]) < 0 ==> d == Decoded(Illegal, p + 1)
    ensures d.cp == Incomplete ==> d.next == |buf|
    ensures !IsSentinel(d.cp) ==>
              IsValidCodepoint(d.cp) && Width(d.cp) == d.next - p == TrailLength(buf[p]) + 1
  {
    if p == |buf| then Decoded(Incomplete, p)
    else
      var first := buf[p];
      var trailLen := TrailLength(first);
      if trailLen < 0 then Decoded(Illegal, p + 1)
      else if trailLen == 0 then Decoded(Widen(first), p + 1)
      else
        match Accumulate(buf, p + 1, trailLen, (first as Codepoint) & LeadMask(trailLen))
        case Stopped(d) => d
        case Folded(c, next) => Finish(c, next, trailLen)
  }

  /** The checks made once every continuation byte is folded in: the value
      must be a scalar value, and its shortest encoding must be as long as
      the sequence read (no overlong forms). */
  function Finish(c: Codepoint, next: nat, trailLen: int): (d: Decoded)
    ensures d.next == next
    ensures !IsSentinel(d.cp) <==> IsValidCodepoint(c) && Width(c) == trailLen + 1
    ensures !IsSentinel(d.cp) ==> d.cp == c
    ensures IsSentinel(d.cp) ==> d.cp == Illegal
  {
    if !IsValidCodepoint(c) then Decoded(Illegal, next)
    else if Width(c) != trailLen + 1 then Decoded(Illegal, next)
    else Decoded(c, next)
  }

  /** Outcome of the continuation bytes: either decoding stopped early with
      a sentinel, or all of them were folded into c. */
  datatype Folding = Stopped(d: Decoded) | Folded(c: Codepoint, next: nat)

  /** The fall-through over the continuation bytes: `left` of them are still
      to be read at index q into the accumulator c. As in the source, a
      continuation byte is refused only when TrailLength calls it ASCII. */
  function Accumulate(buf: seq<Byte>, q: nat, left: nat, c: Codepoint): (f: Folding)
    requires q <= |buf| && 1 <= left <= 3
    ensures f.Folded? ==> f.next == q + left <= |buf|
    ensures f.Stopped? ==> IsSentinel(f.d.cp) && q <= f.d.next <= q + left && f.d.next <= |buf|
    ensures f.Stopped? && f.d.cp == Incomplete ==> f.d.next == |buf|
    decreases left
  {
    if q == |buf| then Stopped(Decoded(Incomplete, q))
    else
      var tmp := buf[q];
      if TrailLength(tmp) == 0 then Stopped(Decoded(Illegal, q + 1))
      else
        var c' := (c << 6) | ((tmp as Codepoint) & 0x3F);
        if left == 1 then Folded(c', q + 1)
        else Accumulate(buf, q + 1, left - 1, c')
  }

  /** Number of bytes the unchecked decoder takes for a given first byte:
      one for every byte below 0xC0, otherwise as the lead announces. */
  function ValidLength(first: Byte): (n: nat)
    ensures 1 <= n <= 4
  {
    if first < 192 then 1
    else if first < 224 then 2
    else if first < 240 then 3
    else 4
  }

  /** The unchecked decoder for input already known to be UTF-8: no bounds,
      continuation or range checks. The caller must supply the bytes the
      first byte announces. */
  function DecodeValid(buf: seq<Byte>, p: nat): (d: Decoded)
    requires p < |buf| && p + ValidLength(buf[p]) <= |buf|
    ensures d.next == p + ValidLength(buf[p])
  {
    var first := buf[p];
    if first < 192 then Decoded(Widen(first), p + 1)
    else
      var trailLen := ValidLength(first) - 1;
      var c := (first as Codepoint) & LeadMask(trailLen);
      var c := if trailLen >= 3 then (c << 6) | (0x3F & buf[p + 1] as Codepoint) else c;
      var c := if trailLen >= 2 then (c << 6) | (0x3F & buf[p + trailLen - 1] as Codepoint) else c;
      var c := (c << 6) | (0x3F & buf[p + trailLen] as Codepoint);
      Decoded(c, p + trailLen + 1)
  }

  /** A byte read as a codepoint (zero-extended). */
  function Widen(b: Byte): Codepoint {
    b as Codepoint
  }

  /** The low byte of a 32-bit value, as a narrowing cast keeps it. */
  function Lo8(x: bv32): Byte {
    (x & 0xFF) as Byte
  }

  /** A continuation byte 10xxxxxx carrying the low six bits of x. */
  function ContinuationByte(x: bv32): (b: Byte)
    ensures IsTrail(b)
  {
    Lo8((x & 0x3F) | 0x80)
  }

  /** Encodes c into its bytes. No validation: a value above U+10FFFF is
      truncated like the source's narrowing casts truncate it. */
  function Encode(c: Codepoint): (r: seq<Byte>)
    ensures |r| == Width(c)
    ensures forall i | 1 <= i < |r| :: IsTrail(r[i])
    ensures c <= 0x10FFFF ==> TrailLength(r[0]) == |r| - 1
  {
    if c <= 0x7F then
      [Lo8(c)]
    else if c <= 0x7FF then
      [Lo8((c >> 6) | 0xC0), ContinuationByte(c)]
    else if c <= 0xFFFF then
      [Lo8((c >> 12) | 0xE0), ContinuationByte(c >> 6), ContinuationByte(c)]
    else
      [Lo8((c >> 18) | 0xF0), ContinuationByte(c >> 12), ContinuationByte(c >> 6), ContinuationByte(c)]
  }

  // ---------------------------------------------------------------------
  // Properties

  /** Decoding the encoding of a scalar value, wherever it stands in a
      buffer, gives the value back and consumes exactly its width. */
  lemma DecodeEncode(c: Codepoint, prefix: seq<Byte>, suffix: seq<Byte>)
    requires IsValidCodepoint(c)
    ensures Decode(prefix + Encode(c) + suffix, |prefix|) == Decoded(c, |prefix| + Width(c))
  {
    var e := Encode(c);
    var buf := prefix + e + suffix;
    var p := |prefix|;
    assert buf[p..p + |e|] == e;
    DecodeAt(c, buf, p);
  }

  /** A value below 0x80 is its own single byte. */
  lemma AsciiRoundTrip(c: Codepoint)
    requires c <= 0x7F
    ensures Widen(Lo8(c)) == c && TrailLength(Lo8(c)) == 0
  {
  }

  /** What a lead byte announces is real: a byte with a non-negative
      trail length is the first byte of the encoding of some scalar value
      of exactly trail length + 1 bytes. */
  lemma TrailLengthAnnounces(v: Byte)
    requires TrailLength(v) >= 0
    ensures exists c :: IsValidCodepoint(c) && Encode(c)[0] == v && Width(c) == TrailLength(v) + 1
  {
    var n := TrailLength(v);
    var b := v as Codepoint;
    var c: Codepoint;
    if n == 0 {
      c := b;
    } else if n == 1 {
      c := (b & 0x1F) << 6;
    } else if n == 2 {
      c := if v == 0xE0 then 0x800 else (b & 0x0F) << 12;
    } else {
      c := if v == 0xF0 then 0x1_0000 else (b & 0x07) << 18;
    }
    assert IsValidCodepoint(c) && Encode(c)[0] == v && Width(c) == n + 1;
  }

  /** The same, for a buffer holding the encoding at index p. */
  lemma DecodeAt(c: Codepoint, buf: seq<Byte>, p: nat)
    requires IsValidCodepoint(c) && p + Width(c) <= |buf| && buf[p..p + Width(c)] == Encode(c)
    ensures Decode(buf, p) == Decoded(c, p + Width(c))
  {
    var w := buf[p..p + Width(c)];
    assert buf[p] == w[0];
    if c <= 0x7F {
      AsciiRoundTrip(c);
    } else if c <= 0x7FF {
      assert buf[p + 1] == w[1];
      DecodeAt2(c, buf, p);
    } else if c <= 0xFFFF {
      assert buf[p + 1] == w[1] && buf[p + 2] == w[2];
      DecodeAt3(c, buf, p);
    } else {
      assert buf[p + 1] == w[1] && buf[p + 2] == w[2] && buf[p + 3] == w[3];
      DecodeAt4(c, buf, p);
    }
  }

  // The bit-level facts behind the round trip, one kind per lemma: the
  // solver handles each quickly on its own.

  lemma Fold2(c: Codepoint)
    requires 0x80 <= c <= 0x7FF
    ensures var b0, b1 := Lo8((c >> 6) | 0xC0), Lo8((c & 0x3F) | 0x80);
      ((b0 as Codepoint & 0x1F) << 6) | (b1 as Codepoint & 0x3F) == c
  {
  }

  lemma Leads2(c: Codepoint)
    requires 0x80 <= c <= 0x7FF
    ensures TrailLength(Lo8((c >> 6) | 0xC0)) == 1 && TrailLength(Lo8((c & 0x3F) | 0x80)) != 0
  {
  }

  lemma Fold3(c: Codepoint)
    requires 0x800 <= c <= 0xFFFF
    ensures var b0, b1, b2 := Lo8((c >> 12) | 0xE0), Lo8(((c >> 6) & 0x3F) | 0x80), Lo8((c & 0x3F) | 0x80);
      ((((b0 as Codepoint & 0x0F) << 6) | (b1 as Codepoint & 0x3F)) << 6) | (b2 as Codepoint & 0x3F) == c
  {
  }

  lemma Leads3(c: Codepoint)
    requires 0x800 <= c <= 0xFFFF
    ensures TrailLength(Lo8((c >> 12) | 0xE0)) == 2
    ensures TrailLength(Lo8(((c >> 6) & 0x3F) | 0x80)) != 0 && TrailLength(Lo8((c & 0x3F) | 0x80)) != 0
  {
  }

  lemma Fold4(c: Codepoint)
    requires 0x1_0000 <= c <= 0x10FFFF
    ensures var b0, b1, b2, b3 := Lo8((c >> 18) | 0xF0), Lo8(((c >> 12) & 0x3F) | 0x80),
                                  Lo8(((c >> 6) & 0x3F) | 0x80), Lo8((c & 0x3F) | 0x80);
      ((((((b0 as Codepoint & 0x07) << 6) | (b1 as Codepoint & 0x3F)) << 6)
      | (b2 as Codepoint & 0x3F)) << 6) | (b3 as Codepoint & 0x3F) == c
  {
  }

  lemma Leads4(c: Codepoint)
    requires 0x1_0000 <= c <= 0x10FFFF
    ensures TrailLength(Lo8((c >> 18) | 0xF0)) == 3 && TrailLength(Lo8(((c >> 12) & 0x3F) | 0x80)) != 0
    ensures TrailLength(Lo8(((c >> 6) & 0x3F) | 0x80)) != 0 && TrailLength(Lo8((c & 0x3F) | 0x80)) != 0
  {
  }

  lemma DecodeAt2(c: Codepoint, buf: seq<Byte>, p: nat)
    requires 0x80 <= c <= 0x7FF && p + 2 <= |buf|
    requires buf[p] == Lo8((c >> 6) | 0xC0) && buf[p + 1] == Lo8((c & 0x3F) | 0x80)
    ensures Decode(buf, p) == Decoded(c, p + 2)
  {
    Fold2(c);
    Leads2(c);
    DecodeTwo(buf, p, c);
  }

  lemma DecodeAt3(c: Codepoint, buf: seq<Byte>, p: nat)
    requires 0x800 <= c <= 0xFFFF && !(0xD800 <= c <= 0xDFFF) && p + 3 <= |buf|
    requires buf[p] == Lo8((c >> 12) | 0xE0) && buf[p + 1] == Lo8(((c >> 6) & 0x3F) | 0x80)
    requires buf[p + 2] == Lo8((c & 0x3F) | 0x80)
    ensures Decode(buf, p) == Decoded(c, p + 3)
  {
    Fold3(c);
    Leads3(c);
    DecodeThree(buf, p, c);
  }

  lemma DecodeAt4(c: Codepoint, buf: seq<Byte>, p: nat)
    requires 0x1_0000 <= c <= 0x10FFFF && p + 4 <= |buf|
    requires buf[p] == Lo8((c >> 18) | 0xF0) && buf[p + 1] == Lo8(((c >> 12) & 0x3F) | 0x80)
    requires buf[p + 2] == Lo8(((c >> 6) & 0x3F) | 0x80) && buf[p + 3] == Lo8((c & 0x3F) | 0x80)
    ensures Decode(buf, p) == Decoded(c, p + 4)
  {
    Fold4(c);
    Leads4(c);
    DecodeFour(buf, p, c);
  }

  /** One continuation byte that is not ASCII is folded into the
      accumulator. */
  lemma AccumulateStep(buf: seq<Byte>, q: nat, left: nat, c: Codepoint)
    requires q < |buf| && 1 <= left <= 3 && TrailLength(buf[q]) != 0
    ensures Accumulate(buf, q, left, c)
         == if left == 1 then Folded((c << 6) | (buf[q] as Codepoint & 0x3F), q + 1)
            else Accumulate(buf, q + 1, left - 1, (c << 6) | (buf[q] as Codepoint & 0x3F))
  {
  }

  /** A lead byte announcing n - 1 continuation bytes, followed by n - 1
      bytes that are not ASCII, decodes to the value their payloads fold to,
      when that value is a scalar value of width n. */
  lemma DecodeTwo(buf: seq<Byte>, p: nat, c: Codepoint)
    requires p + 2 <= |buf| && TrailLength(buf[p]) == 1 && TrailLength(buf[p + 1]) != 0
    requires ((buf[p] as Codepoint & 0x1F) << 6) | (buf[p + 1] as Codepoint & 0x3F) == c
    requires IsValidCodepoint(c) && Width(c) == 2
    ensures Decode(buf, p) == Decoded(c, p + 2)
  {
    var c0 := buf[p] as Codepoint & 0x1F;
    AccumulateStep(buf, p + 1, 1, c0);
  }

  lemma DecodeThree(buf: seq<Byte>, p: nat, c: Codepoint)
    requires p + 3 <= |buf| && TrailLength(buf[p]) == 2
    requires TrailLength(buf[p + 1]) != 0 && TrailLength(buf[p + 2]) != 0
    requires ((((buf[p] as Codepoint & 0x0F) << 6) | (buf[p + 1] as Codepoint & 0x3F)) << 6)
             | (buf[p + 2] as Codepoint & 0x3F) == c
    requires IsValidCodepoint(c) && Width(c) == 3
    ensures Decode(buf, p) == Decoded(c, p + 3)
  {
    var c0 := buf[p] as Codepoint & 0x0F;
    var c1 := (c0 << 6) | (buf[p + 1] as Codepoint & 0x3F);
    AccumulateStep(buf, p + 1, 2, c0);
    AccumulateStep(buf, p + 2, 1, c1);
  }

  lemma DecodeFour(buf: seq<Byte>, p: nat, c: Codepoint)
    requires p + 4 <= |buf| && TrailLength(buf[p]) == 3 && TrailLength(buf[p + 1]) != 0
    requires TrailLength(buf[p + 2]) != 0 && TrailLength(buf[p + 3]) != 0
    requires ((((((buf[p] as Codepoint & 0x07) << 6) | (buf[p + 1] as Codepoint & 0x3F)) << 6)
             | (buf[p + 2] as Codepoint & 0x3F)) << 6) | (buf[p + 3] as Codepoint & 0x3F) == c
    requires IsValidCodepoint(c) && Width(c) == 4
    ensures Decode(buf, p) == Decoded(c, p + 4)
  {
    var c0 := buf[p] as Codepoint & 0x07;
    var c1 := (c0 << 6) | (buf[p + 1] as Codepoint & 0x3F);
    var c2 := (c1 << 6) | (buf[p + 2] as Codepoint & 0x3F);
    AccumulateStep(buf, p + 1, 3, c0);
    AccumulateStep(buf, p + 2, 2, c1);
    AccumulateStep(buf, p + 3, 1, c2);
  }

  // ---------------------------------------------------------------------
  // The unchecked decoder agrees with the checked one on well-formed input

  /** Wherever the checked decoder yields a scalar value, the unchecked
      decoder reads the same number of bytes and yields the same value. */
  lemma DecodeValidAgrees(buf: seq<Byte>, p: nat)
    requires p < |buf| && !IsSentinel(Decode(buf, p).cp)
    ensures p + ValidLength(buf[p]) <= |buf| && DecodeValid(buf, p) == Decode(buf, p)
  {
    var n := TrailLength(buf[p]);
    if n == 1 {
      AgreeTwo(buf, p);
    } else if n == 2 {
      AgreeThree(buf, p);
    } else if n == 3 {
      AgreeFour(buf, p);
    }
  }

  lemma ValidLengthOfLead(first: Byte)
    requires TrailLength(first) >= 0
    ensures ValidLength(first) == TrailLength(first) + 1
  {
  }

  lemma AgreeTwo(buf: seq<Byte>, p: nat)
    requires p < |buf| && TrailLength(buf[p]) == 1 && !IsSentinel(Decode(buf, p).cp)
    ensures p + ValidLength(buf[p]) <= |buf| && DecodeValid(buf, p) == Decode(buf, p)
  {
    ValidLengthOfLead(buf[p]);
    assert p + 1 < |buf| && TrailLength(buf[p + 1]) != 0;
    AccumulateStep(buf, p + 1, 1, buf[p] as Codepoint & LeadMask(1));
  }

  lemma AgreeThree(buf: seq<Byte>, p: nat)
    requires p < |buf| && TrailLength(buf[p]) == 2 && !IsSentinel(Decode(buf, p).cp)
    ensures p + ValidLength(buf[p]) <= |buf| && DecodeValid(buf, p) == Decode(buf, p)
  {
    ValidLengthOfLead(buf[p]);
    var c0 := buf[p] as Codepoint & LeadMask(2);
    assert p + 1 < |buf| && TrailLength(buf[p + 1]) != 0;
    AccumulateStep(buf, p + 1, 2, c0);
    var c1 := (c0 << 6) | (buf[p + 1] as Codepoint & 0x3F);
    assert p + 2 < |buf| && TrailLength(buf[p + 2]) != 0;
    AccumulateStep(buf, p + 2, 1, c1);
  }

  lemma AgreeFour(buf: seq<Byte>, p: nat)
    requires p < |buf| && TrailLength(buf[p]) == 3 && !IsSentinel(Decode(buf, p).cp)
    ensures p + ValidLength(buf[p]) <= |buf| && DecodeValid(buf, p) == Decode(buf, p)
  {
    ValidLengthOfLead(buf[p]);
    var c0 := buf[p] as Codepoint & LeadMask(3);
    assert p + 1 < |buf| && TrailLength(buf[p + 1]) != 0;
    AccumulateStep(buf, p + 1, 3, c0);
    var c1 := (c0 << 6) | (buf[p + 1] as Codepoint & 0x3F);
    assert p + 2 < |buf| && TrailLength(buf[p + 2]) != 0;
    AccumulateStep(buf, p + 2, 2, c1);
    var c2 := (c1 << 6) | (buf[p + 2] as Codepoint & 0x3F);
    assert p + 3 < |buf| && TrailLength(buf[p + 3]) != 0;
    AccumulateStep(buf, p + 3, 1, c2);
  }

  // ---------------------------------------------------------------------
  // Error outcomes of the checked decoder

  lemma {:induction false} AccumulateStopsAtAscii(buf: seq<Byte>, q: nat, left: nat, c: Codepoint, k: nat)
    requires q <= |buf| && 1 <= left <= 3 && k < left && q + k < |buf|
    requires forall j | q <= j < q + k :: TrailLength(buf[j]) != 0
    requires buf[q + k] < 0x80
    ensures Accumulate(buf, q, left, c) == Stopped(Decoded(Illegal, q + k + 1))
    decreases k
  {
    if k > 0 {
      AccumulateStep(buf, q, left, c);
      AccumulateStopsAtAscii(buf, q + 1, left - 1, (c << 6) | (buf[q] as Codepoint & 0x3F), k - 1);
    }
  }

  /** A continuation byte below 0x80 makes the sequence Illegal, and the
      decoder stops right after that byte. */
  lemma AsciiContinuationIsIllegal(buf: seq<Byte>, p: nat, k: nat)
    requires p < |buf| && 1 <= k <= TrailLength(buf[p]) && p + k < |buf|
    requires forall j | p < j < p + k :: TrailLength(buf[j]) != 0
    requires buf[p + k] < 0x80
    ensures Decode(buf, p) == Decoded(Illegal, p + k + 1)
  {
    var n := TrailLength(buf[p]);
    AccumulateStopsAtAscii(buf, p + 1, n, buf[p] as Codepoint & LeadMask(n), k - 1);
  }

  lemma {:induction false} AccumulateRunsOut(buf: seq<Byte>, q: nat, left: nat, c: Codepoint)
    requires q <= |buf| && 1 <= left <= 3 && |buf| < q + left
    requires forall j | q <= j < |buf| :: TrailLength(buf[j]) != 0
    ensures Accumulate(buf, q, left, c) == Stopped(Decoded(Incomplete, |buf|))
    decreases left
  {
    if q < |buf| {
      AccumulateStep(buf, q, left, c);
      AccumulateRunsOut(buf, q + 1, left - 1, (c << 6) | (buf[q] as Codepoint & 0x3F));
    }
  }

  /** A sequence cut short by the end of the buffer, with no ASCII byte
      among the continuation bytes present, is Incomplete and consumes the
      rest of the buffer. */
  lemma TruncatedIsIncomplete(buf: seq<Byte>, p: nat)
    requires p < |buf| && TrailLength(buf[p]) >= 1 && |buf| <= p + TrailLength(buf[p])
    requires forall j | p < j < |buf| :: TrailLength(buf[j]) != 0
    ensures Decode(buf, p) == Decoded(Incomplete, |buf|)
  {
    var n := TrailLength(buf[p]);
    AccumulateRunsOut(buf, p + 1, n, buf[p] as Codepoint & LeadMask(n));
  }

  /** Encoding U+0041 in three bytes is overlong and refused; so is an
      encoded surrogate and a lead byte 0xC0. */
  lemma OverlongAndSurrogateAreIllegal()
    ensures Decode([0xE0, 0x81, 0x81], 0) == Decoded(Illegal, 3)
    ensures Decode([0xED, 0xA0, 0x80], 0) == Decoded(Illegal, 3)
    ensures Decode([0xC0, 0x81], 0) == Decoded(Illegal, 1)
  {
  }

  // ---------------------------------------------------------------------
  // A lead byte accepted as a continuation byte
  //
  // The checked decoder tests each continuation byte only for being
  // non-ASCII, so a lead byte (0xC0..0xFF) passes where 10xxxxxx is
  // required, and a sequence that is not the encoding of its own value
  // decodes without error.

  /** [0xC3, 0xC3] decodes to U+00C3, whose encoding is [0xC3, 0x83]; the
      corrected decoder refuses it. */
  lemma LeadByteTakenAsContinuation()
    ensures Decode([0xC3, 0xC3], 0) == Decoded(0xC3, 2)
    ensures Encode(0xC3) == [0xC3, 0x83]
    ensures DecodeStrict([0xC3, 0xC3], 0) == Decoded(Illegal, 2)
  {
  }

  /** The corrected decoder: identical to Decode except that a
      continuation byte must have the form 10xxxxxx. */
  function DecodeStrict(buf: seq<Byte>, p: nat): (d: Decoded)
    requires p <= |buf|
    ensures p == |buf| ==> d == Decoded(Incomplete, p)
    ensures p < |buf| ==> p < d.next <= p + 4 && d.next <= |buf|
    ensures p < |buf| && TrailLength(buf[p]) < 0 ==> d == Decoded(Illegal, p + 1)
    ensures d.cp == Incomplete ==> d.next == |buf|
    ensures !IsSentinel(d.cp) ==>
              IsValidCodepoint(d.cp) && Width(d.cp) == d.next - p == TrailLength(buf[p]) + 1
  {
    if p == |buf| then Decoded(Incomplete, p)
    else
      var first := buf[p];
      var trailLen := TrailLength(first);
      if trailLen < 0 then Decoded(Illegal, p + 1)
      else if trailLen == 0 then Decoded(Widen(first), p + 1)
      else
        match AccumulateStrict(buf, p + 1, trailLen, (first as Codepoint) & LeadMask(trailLen))
        case Stopped(d) => d
        case Folded(c, next) => Finish(c, next, trailLen)
  }

  function AccumulateStrict(buf: seq<Byte>, q: nat, left: nat, c: Codepoint): (f: Folding)
    requires q <= |buf| && 1 <= left <= 3
    ensures f.Folded? ==> f.next == q + left <= |buf|
    ensures f.Stopped? ==> IsSentinel(f.d.cp) && q <= f.d.next <= q + left && f.d.next <= |buf|
    ensures f.Stopped? && f.d.cp == Incomplete ==> f.d.next == |buf|
    decreases left
  {
    if q == |buf| then Stopped(Decoded(Incomplete, q))
    else
      var tmp := buf[q];
      if !IsTrail(tmp) then Stopped(Decoded(Illegal, q + 1))
      else
        var c' := (c << 6) | ((tmp as Codepoint) & 0x3F);
        if left == 1 then Folded(c', q + 1)
        else AccumulateStrict(buf, q + 1, left - 1, c')
  }

  lemma AccumulateStrictStep(buf: seq<Byte>, q: nat, left: nat, c: Codepoint)
    requires q < |buf| && 1 <= left <= 3 && IsTrail(buf[q])
    ensures AccumulateStrict(buf, q, left, c)
         == if left == 1 then Folded((c << 6) | (buf[q] as Codepoint & 0x3F), q + 1)
            else AccumulateStrict(buf, q + 1, left - 1, (c << 6) | (buf[q] as Codepoint & 0x3F))
  {
  }

  /** Every value the corrected decoder accepts is read from exactly its
      own encoding: the decoded bytes are Encode(d.cp). */
  lemma DecodeStrictCanonical(buf: seq<Byte>, p: nat)
    requires p <= |buf|
    ensures !IsSentinel(DecodeStrict(buf, p).cp) ==>
              buf[p..DecodeStrict(buf, p).next] == Encode(DecodeStrict(buf, p).cp)
  {
    if p < |buf| && !IsSentinel(DecodeStrict(buf, p).cp) {
      var n := TrailLength(buf[p]);
      if n == 0 {
        assert buf[p..p + 1] == [buf[p]];
      } else if n == 1 {
        StrictCanonTwo(buf, p);
      } else if n == 2 {
        StrictCanonThree(buf, p);
      } else {
        StrictCanonFour(buf, p);
      }
    }
  }

  lemma StrictCanonTwo(buf: seq<Byte>, p: nat)
    requires p < |buf| && TrailLength(buf[p]) == 1 && !IsSentinel(DecodeStrict(buf, p).cp)
    ensures buf[p..DecodeStrict(buf, p).next] == Encode(DecodeStrict(buf, p).cp)
  {
    var c := StrictTwo(buf, p);
    CanonBytes2(c, buf, p);
  }

  lemma StrictCanonThree(buf: seq<Byte>, p: nat)
    requires p < |buf| && TrailLength(buf[p]) == 2 && !IsSentinel(DecodeStrict(buf, p).cp)
    ensures buf[p..DecodeStrict(buf, p).next] == Encode(DecodeStrict(buf, p).cp)
  {
    var c := StrictThree(buf, p);
    CanonBytes3(c, buf, p);
  }

  lemma StrictCanonFour(buf: seq<Byte>, p: nat)
    requires p < |buf| && TrailLength(buf[p]) == 3 && !IsSentinel(DecodeStrict(buf, p).cp)
    ensures buf[p..DecodeStrict(buf, p).next] == Encode(DecodeStrict(buf, p).cp)
  {
    var c := StrictFour(buf, p);
    CanonBytes4(c, buf, p);
  }

  // What a successful strict decode has read, one lemma per length.

  /** A successful strict decode of a multi-byte sequence is the fold of
      its continuation bytes into the lead byte's payload. */
  lemma StrictFolded(buf: seq<Byte>, p: nat, n: int)
    requires p < |buf| && n == TrailLength(buf[p]) && 1 <= n && !IsSentinel(DecodeStrict(buf, p).cp)
    ensures p + 1 + n <= |buf| && Width(DecodeStrict(buf, p).cp) == n + 1
    ensures AccumulateStrict(buf, p + 1, n, buf[p] as Codepoint & LeadMask(n))
         == Folded(DecodeStrict(buf, p).cp, p + 1 + n)
  {
  }

  /** A fold that completes at index end read a continuation byte first. */
  lemma FoldedStep(buf: seq<Byte>, q: nat, left: nat, c0: Codepoint, c: Codepoint, end: nat)
    requires q <= |buf| && 2 <= left <= 3 && q + left == end
    requires AccumulateStrict(buf, q, left, c0) == Folded(c, end)
    ensures q + 1 <= |buf| && IsTrail(buf[q])
    ensures AccumulateStrict(buf, q + 1, left - 1, (c0 << 6) | (buf[q] as Codepoint & 0x3F)) == Folded(c, end)
  {
  }

  lemma FoldedLast(buf: seq<Byte>, q: nat, c0: Codepoint, c: Codepoint, end: nat)
    requires q <= |buf| && q + 1 == end && AccumulateStrict(buf, q, 1, c0) == Folded(c, end)
    ensures q < |buf| && IsTrail(buf[q])
    ensures c == (c0 << 6) | (buf[q] as Codepoint & 0x3F)
  {
  }

  /** Two and three continuation bytes folded to completion. */
  lemma FoldedTwo(buf: seq<Byte>, q: nat, c0: Codepoint, c: Codepoint, end: nat)
    requires q <= |buf| && q + 2 == end && AccumulateStrict(buf, q, 2, c0) == Folded(c, end)
    ensures end <= |buf| && IsTrail(buf[q]) && IsTrail(buf[q + 1])
    ensures c == (((c0 << 6) | (buf[q] as Codepoint & 0x3F)) << 6) | (buf[q + 1] as Codepoint & 0x3F)
  {
    FoldedStep(buf, q, 2, c0, c, end);
    FoldedLast(buf, q + 1, (c0 << 6) | (buf[q] as Codepoint & 0x3F), c, end);
  }

  lemma FoldedThree(buf: seq<Byte>, q: nat, c0: Codepoint, c: Codepoint, end: nat)
    requires q <= |buf| && q + 3 == end && AccumulateStrict(buf, q, 3, c0) == Folded(c, end)
    ensures end <= |buf| && IsTrail(buf[q]) && IsTrail(buf[q + 1]) && IsTrail(buf[q + 2])
    ensures c == (((((c0 << 6) | (buf[q] as Codepoint & 0x3F)) << 6) | (buf[q + 1] as Codepoint & 0x3F)) << 6)
                 | (buf[q + 2] as Codepoint & 0x3F)
  {
    FoldedStep(buf, q, 3, c0, c, end);
    FoldedTwo(buf, q + 1, (c0 << 6) | (buf[q] as Codepoint & 0x3F), c, end);
  }

  lemma StrictTwo(buf: seq<Byte>, p: nat) returns (c: Codepoint)
    requires p < |buf| && TrailLength(buf[p]) == 1 && !IsSentinel(DecodeStrict(buf, p).cp)
    ensures p + 2 <= |buf| && IsTrail(buf[p + 1])
    ensures c == ((buf[p] as Codepoint & 0x1F) << 6) | (buf[p + 1] as Codepoint & 0x3F)
    ensures DecodeStrict(buf, p) == Decoded(c, p + 2) && Width(c) == 2
  {
    StrictFolded(buf, p, 1);
    c := DecodeStrict(buf, p).cp;
    assert LeadMask(1) == 0x1F;
    FoldedLast(buf, p + 1, buf[p] as Codepoint & LeadMask(1), c, p + 1 + 1);
  }

  lemma StrictThree(buf: seq<Byte>, p: nat) returns (c: Codepoint)
    requires p < |buf| && TrailLength(buf[p]) == 2 && !IsSentinel(DecodeStrict(buf, p).cp)
    ensures p + 3 <= |buf| && IsTrail(buf[p + 1]) && IsTrail(buf[p + 2])
    ensures c == ((((buf[p] as Codepoint & 0x0F) << 6) | (buf[p + 1] as Codepoint & 0x3F)) << 6)
                 | (buf[p + 2] as Codepoint & 0x3F)
    ensures DecodeStrict(buf, p) == Decoded(c, p + 3) && Width(c) == 3
  {
    StrictFolded(buf, p, 2);
    c := DecodeStrict(buf, p).cp;
    assert LeadMask(2) == 0x0F;
    FoldedTwo(buf, p + 1, buf[p] as Codepoint & LeadMask(2), c, p + 1 + 2);
  }

  lemma StrictFour(buf: seq<Byte>, p: nat) returns (c: Codepoint)
    requires p < |buf| && TrailLength(buf[p]) == 3 && !IsSentinel(DecodeStrict(buf, p).cp)
    ensures p + 4 <= |buf| && IsTrail(buf[p + 1]) && IsTrail(buf[p + 2]) && IsTrail(buf[p + 3])
    ensures c == ((((((buf[p] as Codepoint & 0x07) << 6) | (buf[p + 1] as Codepoint & 0x3F)) << 6)
                 | (buf[p + 2] as Codepoint & 0x3F)) << 6) | (buf[p + 3] as Codepoint & 0x3F)
    ensures DecodeStrict(buf, p) == Decoded(c, p + 4) && Width(c) == 4
  {
    StrictFolded(buf, p, 3);
    c := DecodeStrict(buf, p).cp;
    assert LeadMask(3) == 0x07;
    FoldedThree(buf, p + 1, buf[p] as Codepoint & LeadMask(3), c, p + 1 + 3);
  }

  // The bytes such a decode has read are the encoding of its value.

  lemma CanonBytes2(c: Codepoint, buf: seq<Byte>, p: nat)
    requires p + 2 <= |buf| && TrailLength(buf[p]) == 1 && IsTrail(buf[p + 1]) && Width(c) == 2
    requires c == ((buf[p] as Codepoint & 0x1F) << 6) | (buf[p + 1] as Codepoint & 0x3F)
    ensures buf[p..p + 2] == Encode(c)
  {
    Canon2(buf[p], buf[p + 1]);
    EncodeSplit2(c, buf[p], buf[p + 1]);
  }

  lemma CanonBytes3(c: Codepoint, buf: seq<Byte>, p: nat)
    requires p + 3 <= |buf| && TrailLength(buf[p]) == 2 && Width(c) == 3
    requires IsTrail(buf[p + 1]) && IsTrail(buf[p + 2])
    requires c == ((((buf[p] as Codepoint & 0x0F) << 6) | (buf[p + 1] as Codepoint & 0x3F)) << 6)
                 | (buf[p + 2] as Codepoint & 0x3F)
    ensures buf[p..p + 3] == Encode(c)
  {
    Canon3(buf[p], buf[p + 1], buf[p + 2]);
    EncodeSplit3(c, buf[p], buf[p + 1], buf[p + 2]);
  }

  lemma CanonBytes4(c: Codepoint, buf: seq<Byte>, p: nat)
    requires p + 4 <= |buf| && TrailLength(buf[p]) == 3 && Width(c) == 4
    requires IsTrail(buf[p + 1]) && IsTrail(buf[p + 2]) && IsTrail(buf[p + 3])
    requires c == ((((((buf[p] as Codepoint & 0x07) << 6) | (buf[p + 1] as Codepoint & 0x3F)) << 6)
                 | (buf[p + 2] as Codepoint & 0x3F)) << 6) | (buf[p + 3] as Codepoint & 0x3F)
    ensures buf[p..p + 4] == Encode(c)
  {
    Canon4(buf[p], buf[p + 1], buf[p + 2], buf[p + 3]);
    EncodeSplit4(c, buf[p], buf[p + 1], buf[p + 2], buf[p + 3]);
  }

  // Re-encoding the folded value gives back the lead and continuation
  // bytes, one lemma per sequence length.

  lemma Canon2(b0: Byte, b1: Byte)
    requires TrailLength(b0) == 1 && IsTrail(b1)
    ensures var c := ((b0 as Codepoint & 0x1F) << 6) | (b1 as Codepoint & 0x3F);
            Lo8((c >> 6) | 0xC0) == b0 && Lo8((c & 0x3F) | 0x80) == b1
  {
  }

  lemma Canon3(b0: Byte, b1: Byte, b2: Byte)
    requires TrailLength(b0) == 2 && IsTrail(b1) && IsTrail(b2)
    ensures var c := ((((b0 as Codepoint & 0x0F) << 6) | (b1 as Codepoint & 0x3F)) << 6)
                     | (b2 as Codepoint & 0x3F);
            Lo8((c >> 12) | 0xE0) == b0 && Lo8(((c >> 6) & 0x3F) | 0x80) == b1
            && Lo8((c & 0x3F) | 0x80) == b2
  {
  }

  lemma Canon4(b0: Byte, b1: Byte, b2: Byte, b3: Byte)
    requires TrailLength(b0) == 3 && IsTrail(b1) && IsTrail(b2) && IsTrail(b3)
    ensures var c := ((((((b0 as Codepoint & 0x07) << 6) | (b1 as Codepoint & 0x3F)) << 6)
                     | (b2 as Codepoint & 0x3F)) << 6) | (b3 as Codepoint & 0x3F);
            Lo8((c >> 18) | 0xF0) == b0 && Lo8(((c >> 12) & 0x3F) | 0x80) == b1
            && Lo8(((c >> 6) & 0x3F) | 0x80) == b2 && Lo8((c & 0x3F) | 0x80) == b3
  {
  }

  lemma EncodeSplit2(c: Codepoint, b0: Byte, b1: Byte)
    requires Width(c) == 2 && Lo8((c >> 6) | 0xC0) == b0 && Lo8((c & 0x3F) | 0x80) == b1
    ensures Encode(c) == [b0, b1]
  {
  }

  lemma EncodeSplit3(c: Codepoint, b0: Byte, b1: Byte, b2: Byte)
    requires Width(c) == 3 && Lo8((c >> 12) | 0xE0) == b0
    requires Lo8(((c >> 6) & 0x3F) | 0x80) == b1 && Lo8((c & 0x3F) | 0x80) == b2
    ensures Encode(c) == [b0, b1, b2]
  {
  }

  lemma EncodeSplit4(c: Codepoint, b0: Byte, b1: Byte, b2: Byte, b3: Byte)
    requires Width(c) == 4 && Lo8((c >> 18) | 0xF0) == b0 && Lo8(((c >> 12) & 0x3F) | 0x80) == b1
    requires Lo8(((c >> 6) & 0x3F) | 0x80) == b2 && Lo8((c & 0x3F) | 0x80) == b3
    ensures Encode(c) == [b0, b1, b2, b3]
  {
  }

  /** Where the continuation bytes do have the form 10xxxxxx, the
      corrected decoder and the decoder as written agree. */
  lemma {:induction false} AccumulateAgrees(buf: seq<Byte>, q: nat, left: nat, c: Codepoint)
    requires q <= |buf| && 1 <= left <= 3
    requires forall j | q <= j < |buf| && j < q + left :: IsTrail(buf[j])
    ensures AccumulateStrict(buf, q, left, c) == Accumulate(buf, q, left, c)
    decreases left
  {
    if q < |buf| {
      AccumulateStep(buf, q, left, c);
      AccumulateStrictStep(buf, q, left, c);
      if left > 1 {
        AccumulateAgrees(buf, q + 1, left - 1, (c << 6) | (buf[q] as Codepoint & 0x3F));
      }
    }
  }

  lemma DecodeAgreesOnTrails(buf: seq<Byte>, p: nat)
    requires p < |buf|
    requires forall j | p < j < |buf| && j <= p + TrailLength(buf[p]) :: IsTrail(buf[j])
    ensures DecodeStrict(buf, p) == Decode(buf, p)
  {
    var n := TrailLength(buf[p]);
    if n > 0 {
      AccumulateAgrees(buf, p + 1, n, buf[p] as Codepoint & LeadMask(n));
    }
  }

  /** The corrected decoder reads back every encoded scalar value. */
  lemma DecodeStrictEncode(c: Codepoint, prefix: seq<Byte>, suffix: seq<Byte>)
    requires IsValidCodepoint(c)
    ensures DecodeStrict(prefix + Encode(c) + suffix, |prefix|) == Decoded(c, |prefix| + Width(c))
  {
    var buf := prefix + Encode(c) + suffix;
    var p := |prefix|;
    DecodeEncode(c, prefix, suffix);
    assert buf[p] == Encode(c)[0];
    forall j | p < j < |buf| && j <= p + TrailLength(buf[p])
      ensures IsTrail(buf[j])
    {
      assert buf[j] == Encode(c)[j - p];
    }
    DecodeAgreesOnTrails(buf, p);
  }
}
