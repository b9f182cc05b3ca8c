/** Conversion between encoding forms: utf_to_utf decodes its input one
    scalar value at a time and appends each value's encoding in the target
    form, dropping whatever does not decode. */
module Transcode {
  import opened Unicode
  import Utf8Codec
  import Utf16Codec
  import Utf32Codec

  /** An encoding form, told apart in the source by the size of the
      character type. */
  datatype Form = Utf8 | Utf16 | Utf32

  /** A string of code units of one form. */
  datatype Buffer =
    | Bytes(bytes: seq<Utf8Codec.Byte>)
    | Units16(units16: seq<Utf16Codec.Unit>)
    | Units32(units32: seq<Utf32Codec.Unit>)
  {
    function Kind(): Form {
      match this
      case Bytes(_) => Utf8
      case Units16(_) => Utf16
      case Units32(_) => Utf32
    }

    function Length(): nat {
      match this
      case Bytes(s) => |s|
      case Units16(s) => |s|
      case Units32(s) => |s|
    }
  }

  function Empty(f: Form): (b: Buffer)
    ensures b.Kind() == f && b.Length() == 0
  {
    match f
    case Utf8 => Bytes([])
    case Utf16 => Units16([])
    case Utf32 => Units32([])
  }

  /** Appends the units of b to those of a. */
  function Concat(a: Buffer, b: Buffer): (r: Buffer)
    requires a.Kind() == b.Kind()
    ensures r.Kind() == a.Kind() && r.Length() == a.Length() + b.Length()
  {
    match a
    case Bytes(s) => Bytes(s + b.bytes)
    case Units16(s) => Units16(s + b.units16)
    case Units32(s) => Units32(s + b.units32)
  }

  /** The units from i up to (not including) j. */
  function Slice(a: Buffer, i: nat, j: nat): (r: Buffer)
    requires i <= j <= a.Length()
    ensures r.Kind() == a.Kind() && r.Length() == j - i
  {
    match a
    case Bytes(s) => Bytes(s[i..j])
    case Units16(s) => Units16(s[i..j])
    case Units32(s) => Units32(s[i..j])
  }

  lemma ConcatAssoc(a: Buffer, b: Buffer, c: Buffer)
    requires a.Kind() == b.Kind() == c.Kind()
    ensures Concat(Concat(a, b), c) == Concat(a, Concat(b, c))
  {
    match a
    case Bytes(s) => assert (s + b.bytes) + c.bytes == s + (b.bytes + c.bytes);
    case Units16(s) => assert (s + b.units16) + c.units16 == s + (b.units16 + c.units16);
    case Units32(s) => assert (s + b.units32) + c.units32 == s + (b.units32 + c.units32);
  }

  lemma ConcatEmpty(a: Buffer)
    ensures Concat(a, Empty(a.Kind())) == a && Concat(Empty(a.Kind()), a) == a
  {
    match a
    case Bytes(s) => assert s + [] == s && [] + s == s;
    case Units16(s) => assert s + [] == s && [] + s == s;
    case Units32(s) => assert s + [] == s && [] + s == s;
  }

  /** Two adjacent slices make up the longer slice. */
  lemma ConcatSlices(a: Buffer, i: nat, j: nat, k: nat)
    requires i <= j <= k <= a.Length()
    ensures Concat(Slice(a, i, j), Slice(a, j, k)) == Slice(a, i, k)
  {
    match a
    case Bytes(s) => assert s[i..j] + s[j..k] == s[i..k];
    case Units16(s) => assert s[i..j] + s[j..k] == s[i..k];
    case Units32(s) => assert s[i..j] + s[j..k] == s[i..k];
  }

  lemma SliceWhole(a: Buffer)
    ensures Slice(a, 0, a.Length()) == a
  {
    match a
    case Bytes(s) => assert s[0..|s|] == s;
    case Units16(s) => assert s[0..|s|] == s;
    case Units32(s) => assert s[0..|s|] == s;
  }

  // ---------------------------------------------------------------------
  // One step, dispatched on the form

  /** Number of units the form's encoder writes for c. */
  function WidthIn(f: Form, c: Codepoint): (n: nat)
    ensures 1 <= n <= 4
  {
    match f
    case Utf8 => Utf8Codec.Width(c)
    case Utf16 => Utf16Codec.Width(c)
    case Utf32 => Utf32Codec.Width(c)
  }

  /** One decoding step. The UTF-8 decoder takes no byte order, as in the
      source, where only wider units are decoded with an endian argument. */
  function DecodeAt(src: Buffer, p: nat, e: Endian): (d: Decoded)
    requires p <= src.Length()
    ensures p == src.Length() ==> d.cp == Incomplete
    ensures p < src.Length() ==> p < d.next <= src.Length()
    ensures !IsSentinel(d.cp) ==> IsValidCodepoint(d.cp) && d.next == p + WidthIn(src.Kind(), d.cp)
  {
    match src
    case Bytes(s) => Utf8Codec.Decode(s, p)
    case Units16(s) => Utf16Codec.Decode(s, p, e)
    case Units32(s) => Utf32Codec.Decode(s, p, e)
  }

  /** The encoding of c in form f; byte order e applies to wider units. */
  function EncodeAs(f: Form, c: Codepoint, e: Endian): (r: Buffer)
    ensures r.Kind() == f && r.Length() == WidthIn(f, c)
  {
    match f
    case Utf8 => Bytes(Utf8Codec.Encode(c))
    case Utf16 => Units16(Utf16Codec.Encode(c, e))
    case Utf32 => Units32(Utf32Codec.Encode(c, e))
  }

  /** Decoding the encoding of a scalar value, whatever precedes and
      follows it, gives the value back and stops right after the encoding. */
  lemma DecodeAtEncodeAs(f: Form, c: Codepoint, e: Endian, pre: Buffer, rest: Buffer)
    requires IsValidCodepoint(c) && pre.Kind() == f && rest.Kind() == f
    ensures DecodeAt(Concat(pre, Concat(EncodeAs(f, c, e), rest)), pre.Length(), e)
         == Decoded(c, pre.Length() + WidthIn(f, c))
  {
    match f
    case Utf8 =>
      var s := Utf8Codec.Encode(c);
      assert Concat(pre, Concat(EncodeAs(f, c, e), rest)) == Bytes(pre.bytes + s + rest.bytes);
      Utf8Codec.DecodeEncode(c, pre.bytes, rest.bytes);
    case Utf16 =>
      var s := Utf16Codec.Encode(c, e);
      assert Concat(pre, Concat(EncodeAs(f, c, e), rest)) == Units16(pre.units16 + s + rest.units16);
      Utf16Codec.DecodeEncode(c, e, pre.units16, rest.units16);
    case Utf32 =>
      var s := Utf32Codec.Encode(c, e);
      assert Concat(pre, Concat(EncodeAs(f, c, e), rest)) == Units32(pre.units32 + s + rest.units32);
      Utf32Codec.DecodeEncode(c, e, pre.units32, rest.units32);
  }

  /** For UTF-16 and UTF-32, a successful step reads exactly the encoding
      of the value it yields. */
  lemma DecodeAtCanonical(src: Buffer, p: nat, e: Endian)
    requires src.Kind() != Utf8 && p <= src.Length() && !IsSentinel(DecodeAt(src, p, e).cp)
    ensures Slice(src, p, DecodeAt(src, p, e).next) == EncodeAs(src.Kind(), DecodeAt(src, p, e).cp, e)
  {
    match src
    case Units16(s) => Utf16Codec.DecodeCanonical(s, p, e);
    case Units32(s) => Utf32Codec.DecodeCanonical(s, p, e);
  }

  // ---------------------------------------------------------------------
  // What a conversion produces

  /** The output of a conversion from position p on: each step that yields
      a scalar value contributes that value's encoding in form `to`, with
      byte order outE; Illegal and Incomplete steps contribute nothing. */
  function Transcoded(src: Buffer, p: nat, to: Form, inE: Endian, outE: Endian): (r: Buffer)
    requires p <= src.Length()
    ensures r.Kind() == to
    decreases src.Length() - p
  {
    if p == src.Length() then Empty(to)
    else
      var d := DecodeAt(src, p, inE);
      var rest := Transcoded(src, d.next, to, inE, outE);
      if IsSentinel(d.cp) then rest else Concat(EncodeAs(to, d.cp, outE), rest)
  }

  /** The scalar values the steps from p on yield, in order. Every one is
      a valid scalar value. */
  function Codepoints(src: Buffer, p: nat, e: Endian): (cs: seq<Codepoint>)
    requires p <= src.Length()
    ensures forall i | 0 <= i < |cs| :: IsValidCodepoint(cs[i])
    ensures |cs| <= src.Length() - p
    decreases src.Length() - p
  {
    if p == src.Length() then []
    else
      var d := DecodeAt(src, p, e);
      var rest := Codepoints(src, d.next, e);
      if IsSentinel(d.cp) then rest else [d.cp] + rest
  }

  /** The concatenated encodings of a sequence of values. */
  function EncodeAll(f: Form, cs: seq<Codepoint>, e: Endian): (r: Buffer)
    ensures r.Kind() == f
  {
    if cs == [] then Empty(f) else Concat(EncodeAs(f, cs[0], e), EncodeAll(f, cs[1..], e))
  }

  lemma EncodeAllCons(f: Form, cs: seq<Codepoint>, e: Endian)
    requires cs != []
    ensures EncodeAll(f, cs, e) == Concat(EncodeAs(f, cs[0], e), EncodeAll(f, cs[1..], e))
  {
  }

  /** Every step from p on yields a scalar value. */
  predicate Clean(src: Buffer, p: nat, e: Endian)
    requires p <= src.Length()
    decreases src.Length() - p
  {
    p == src.Length()
    || (var d := DecodeAt(src, p, e);
        !IsSentinel(d.cp) && Clean(src, d.next, e))
  }

  // ---------------------------------------------------------------------
  // Properties of a conversion

  /** A conversion is decoding to scalar values followed by encoding them. */
  lemma {:induction false} TranscodedIsEncodeAll(src: Buffer, p: nat, to: Form, inE: Endian, outE: Endian)
    requires p <= src.Length()
    ensures Transcoded(src, p, to, inE, outE) == EncodeAll(to, Codepoints(src, p, inE), outE)
    decreases src.Length() - p
  {
    if p < src.Length() {
      var d := DecodeAt(src, p, inE);
      TranscodedIsEncodeAll(src, d.next, to, inE, outE);
      if !IsSentinel(d.cp) {
        var cs := [d.cp] + Codepoints(src, d.next, inE);
        assert cs[0] == d.cp && cs[1..] == Codepoints(src, d.next, inE);
      }
    }
  }

  /** The encoding of one scalar value, between any units, decodes to that
      value followed by whatever the units after it decode to. */
  lemma CodepointsOfOne(f: Form, pre: Buffer, c: Codepoint, rest: Buffer, e: Endian)
    requires IsValidCodepoint(c) && pre.Kind() == f && rest.Kind() == f
    ensures var head := Concat(pre, EncodeAs(f, c, e));
      Codepoints(Concat(pre, Concat(EncodeAs(f, c, e), rest)), pre.Length(), e)
      == [c] + Codepoints(Concat(head, rest), head.Length(), e)
  {
    var enc := EncodeAs(f, c, e);
    var head := Concat(pre, enc);
    var src := Concat(pre, Concat(enc, rest));
    ConcatAssoc(pre, enc, rest);
    assert Concat(head, rest) == src;
    DecodeAtEncodeAs(f, c, e, pre, rest);
    SentinelsAreNotValid(c);
    CodepointsStep(src, pre.Length(), e);
    assert DecodeAt(src, pre.Length(), e).next == head.Length();
  }

  /** One step of Codepoints that yields a scalar value. */
  lemma CodepointsStep(src: Buffer, p: nat, e: Endian)
    requires p < src.Length() && !IsSentinel(DecodeAt(src, p, e).cp)
    ensures Codepoints(src, p, e) == [DecodeAt(src, p, e).cp] + Codepoints(src, DecodeAt(src, p, e).next, e)
  {
  }

  /** Decoding the encodings of valid scalar values gives the values back,
      in any form and byte order, whatever units precede them. */
  lemma {:induction false} CodepointsOfEncodeAllAfter(f: Form, pre: Buffer, cs: seq<Codepoint>, e: Endian)
    requires pre.Kind() == f
    requires forall i | 0 <= i < |cs| :: IsValidCodepoint(cs[i])
    ensures Codepoints(Concat(pre, EncodeAll(f, cs, e)), pre.Length(), e) == cs
    decreases |cs|
  {
    if cs != [] {
      EncodeAllCons(f, cs, e);
      CodepointsOfOne(f, pre, cs[0], EncodeAll(f, cs[1..], e), e);
      CodepointsOfEncodeAllAfter(f, Concat(pre, EncodeAs(f, cs[0], e)), cs[1..], e);
      assert [cs[0]] + cs[1..] == cs;
    }
  }

  lemma CodepointsOfEncodeAll(f: Form, cs: seq<Codepoint>, e: Endian)
    requires forall i | 0 <= i < |cs| :: IsValidCodepoint(cs[i])
    ensures Codepoints(EncodeAll(f, cs, e), 0, e) == cs
  {
    CodepointsOfEncodeAllAfter(f, Empty(f), cs, e);
    ConcatEmpty(EncodeAll(f, cs, e));
  }

  /** The encoding of one scalar value, between any units, is a step that
      does not fail. */
  lemma CleanOfOne(f: Form, pre: Buffer, c: Codepoint, rest: Buffer, e: Endian)
    requires IsValidCodepoint(c) && pre.Kind() == f && rest.Kind() == f
    ensures var head := Concat(pre, EncodeAs(f, c, e));
      Clean(Concat(pre, Concat(EncodeAs(f, c, e), rest)), pre.Length(), e)
      == Clean(Concat(head, rest), head.Length(), e)
  {
    var enc := EncodeAs(f, c, e);
    var head := Concat(pre, enc);
    var src := Concat(pre, Concat(enc, rest));
    ConcatAssoc(pre, enc, rest);
    assert Concat(head, rest) == src;
    DecodeAtEncodeAs(f, c, e, pre, rest);
    SentinelsAreNotValid(c);
    CleanStep(src, pre.Length(), e);
    assert DecodeAt(src, pre.Length(), e).next == head.Length();
  }

  /** One step of Clean that yields a scalar value. */
  lemma CleanStep(src: Buffer, p: nat, e: Endian)
    requires p < src.Length() && !IsSentinel(DecodeAt(src, p, e).cp)
    ensures Clean(src, p, e) == Clean(src, DecodeAt(src, p, e).next, e)
  {
  }

  /** The encodings of valid scalar values decode without a failing step,
      in any form and byte order, whatever units precede them. */
  lemma {:induction false} CleanOfEncodeAllAfter(f: Form, pre: Buffer, cs: seq<Codepoint>, e: Endian)
    requires pre.Kind() == f
    requires forall i | 0 <= i < |cs| :: IsValidCodepoint(cs[i])
    ensures Clean(Concat(pre, EncodeAll(f, cs, e)), pre.Length(), e)
    decreases |cs|
  {
    if cs != [] {
      EncodeAllCons(f, cs, e);
      CleanOfOne(f, pre, cs[0], EncodeAll(f, cs[1..], e), e);
      CleanOfEncodeAllAfter(f, Concat(pre, EncodeAs(f, cs[0], e)), cs[1..], e);
    }
  }

  lemma CleanOfEncodeAll(f: Form, cs: seq<Codepoint>, e: Endian)
    requires forall i | 0 <= i < |cs| :: IsValidCodepoint(cs[i])
    ensures Clean(EncodeAll(f, cs, e), 0, e)
  {
    CleanOfEncodeAllAfter(f, Empty(f), cs, e);
    ConcatEmpty(EncodeAll(f, cs, e));
  }

  /** A conversion keeps exactly the scalar values its input decodes to:
      decoding the output yields the same values, in the same order. */
  lemma PreservesCodepoints(src: Buffer, to: Form, inE: Endian, outE: Endian)
    ensures Codepoints(Transcoded(src, 0, to, inE, outE), 0, outE) == Codepoints(src, 0, inE)
  {
    TranscodedIsEncodeAll(src, 0, to, inE, outE);
    CodepointsOfEncodeAll(to, Codepoints(src, 0, inE), outE);
  }

  /** Converting the encoding of valid scalar values gives their encoding
      in the target form, whatever the two forms and byte orders. */
  lemma TranscodeEncoded(from: Form, to: Form, cs: seq<Codepoint>, inE: Endian, outE: Endian)
    requires forall i | 0 <= i < |cs| :: IsValidCodepoint(cs[i])
    ensures Transcoded(EncodeAll(from, cs, inE), 0, to, inE, outE) == EncodeAll(to, cs, outE)
  {
    TranscodedIsEncodeAll(EncodeAll(from, cs, inE), 0, to, inE, outE);
    CodepointsOfEncodeAll(from, cs, inE);
  }

  /** Well-formed UTF-16 or UTF-32 input is the encoding of its own
      values. */
  /** UTF-8 text that encodes scalar values survives a round trip through
      UTF-16, in either byte order of the UTF-16 side. */
  lemma Utf8RoundTripOfEncoded(cs: seq<Codepoint>, e: Endian)
    requires forall i | 0 <= i < |cs| :: IsValidCodepoint(cs[i])
    ensures Transcoded(Transcoded(EncodeAll(Utf8, cs, e), 0, Utf16, e, e), 0, Utf8, e, e) == EncodeAll(Utf8, cs, e)
  {
    TranscodeEncoded(Utf8, Utf16, cs, e, e);
    TranscodeEncoded(Utf16, Utf8, cs, e, e);
  }

  lemma {:induction false} CleanIsEncodeAll(src: Buffer, p: nat, e: Endian)
    requires src.Kind() != Utf8 && p <= src.Length() && Clean(src, p, e)
    ensures EncodeAll(src.Kind(), Codepoints(src, p, e), e) == Slice(src, p, src.Length())
    decreases src.Length() - p
  {
    if p < src.Length() {
      var d := DecodeAt(src, p, e);
      CleanIsEncodeAll(src, d.next, e);
      DecodeAtCanonical(src, p, e);
      ConcatSlices(src, p, d.next, src.Length());
      var cs := [d.cp] + Codepoints(src, d.next, e);
      assert cs[0] == d.cp && cs[1..] == Codepoints(src, d.next, e);
    } else {
      match src
      case Units16(s) => assert s[p..p] == [];
      case Units32(s) => assert s[p..p] == [];
    }
  }

  /** Well-formed UTF-16 or UTF-32 input converted to any form and back
      comes back unchanged. */
  lemma RoundTrip(src: Buffer, via: Form, e: Endian, viaE: Endian)
    requires src.Kind() != Utf8 && Clean(src, 0, e)
    ensures Transcoded(Transcoded(src, 0, via, e, viaE), 0, src.Kind(), viaE, e) == src
  {
    var t := Transcoded(src, 0, via, e, viaE);
    PreservesCodepoints(src, via, e, viaE);
    TranscodedIsEncodeAll(t, 0, src.Kind(), viaE, e);
    CleanIsEncodeAll(src, 0, e);
    SliceWhole(src);
  }

  /** The corresponding UTF-8 round trip does not hold for the decoder as
      written: [0xC3, 0xC3] decodes without error to U+00C3 and comes back
      as [0xC3, 0x83]. */
  lemma Utf8RoundTripChangesInput()
    ensures Clean(Bytes([0xC3, 0xC3]), 0, Native)
    ensures Transcoded(Bytes([0xC3, 0xC3]), 0, Utf16, Native, Native) == Units16([0x00C3])
    ensures Transcoded(Units16([0x00C3]), 0, Utf8, Native, Native) == Bytes([0xC3, 0x83])
  {
    Utf8Codec.LeadByteTakenAsContinuation();
    assert Utf16Codec.Encode(0xC3, Native) == [0x00C3];
  }

  // ---------------------------------------------------------------------
  // Byte order of the output

  /** Each unit of a wide buffer with its bytes swapped; UTF-8 has no byte
      order and is left as it is. */
  function Swapped(b: Buffer): (r: Buffer)
    ensures r.Kind() == b.Kind() && r.Length() == b.Length()
  {
    match b
    case Bytes(s) => b
    case Units16(s) => Units16(Utf16Codec.SwapAll(s))
    case Units32(s) => Units32(Utf32Codec.SwapAll(s))
  }

  lemma SwappedConcat(a: Buffer, b: Buffer)
    requires a.Kind() == b.Kind()
    ensures Swapped(Concat(a, b)) == Concat(Swapped(a), Swapped(b))
  {
    match a
    case Bytes(s) =>
    case Units16(s) =>
      assert Utf16Codec.SwapAll(s + b.units16) == Utf16Codec.SwapAll(s) + Utf16Codec.SwapAll(b.units16);
    case Units32(s) =>
      assert Utf32Codec.SwapAll(s + b.units32) == Utf32Codec.SwapAll(s) + Utf32Codec.SwapAll(b.units32);
  }

  /** Encoding in the opposite byte order gives the same units with their
      bytes swapped. */
  lemma {:induction false} EncodeAllOpposite(f: Form, cs: seq<Codepoint>, e: Endian)
    requires f != Utf8
    ensures EncodeAll(f, cs, Opposite(e)) == Swapped(EncodeAll(f, cs, e))
    decreases |cs|
  {
    if cs == [] {
      match f
      case Utf16 => assert Utf16Codec.SwapAll([]) == [];
      case Utf32 => assert Utf32Codec.SwapAll([]) == [];
    } else {
      EncodeAllOpposite(f, cs[1..], e);
      SwappedConcat(EncodeAs(f, cs[0], e), EncodeAll(f, cs[1..], e));
      match f
      case Utf16 => Utf16Codec.EncodeOpposite(cs[0], e);
      case Utf32 => Utf32Codec.EncodeOpposite(cs[0], e);
    }
  }

  /** Converting into UTF-16 or UTF-32 of the opposite byte order gives the
      byte-swapped output of the conversion. */
  lemma TranscodedOpposite(src: Buffer, to: Form, inE: Endian, outE: Endian)
    requires to != Utf8
    ensures Transcoded(src, 0, to, inE, Opposite(outE)) == Swapped(Transcoded(src, 0, to, inE, outE))
  {
    TranscodedIsEncodeAll(src, 0, to, inE, outE);
    TranscodedIsEncodeAll(src, 0, to, inE, Opposite(outE));
    EncodeAllOpposite(to, Codepoints(src, 0, inE), outE);
  }

  /** UTF-8 output does not depend on the byte order passed along. */
  lemma {:induction false} Utf8IgnoresByteOrder(cs: seq<Codepoint>, e: Endian)
    ensures EncodeAll(Utf8, cs, e) == EncodeAll(Utf8, cs, Native)
    decreases |cs|
  {
    if cs != [] {
      Utf8IgnoresByteOrder(cs[1..], e);
    }
  }

  /** The encodings of two sequences of values, one after the other, are
      the encoding of the two sequences joined. */
  lemma {:induction false} EncodeAllAppend(f: Form, a: seq<Codepoint>, b: seq<Codepoint>, e: Endian)
    ensures EncodeAll(f, a + b, e) == Concat(EncodeAll(f, a, e), EncodeAll(f, b, e))
    decreases |a|
  {
    if a == [] {
      assert a + b == b;
      ConcatEmpty(EncodeAll(f, b, e));
    } else {
      assert (a + b)[0] == a[0] && (a + b)[1..] == a[1..] + b;
      EncodeAllAppend(f, a[1..], b, e);
      ConcatAssoc(EncodeAs(f, a[0], e), EncodeAll(f, a[1..], e), EncodeAll(f, b, e));
    }
  }

  // ---------------------------------------------------------------------
  // The two conversion loops

  /** utf_to_utf between UTF-8 and a wider form: the byte order applies to
      whichever side is not UTF-8. */
  method UtfToUtf(src: Buffer, to: Form, fromOrTo: Endian) returns (result: Buffer)
    requires (src.Kind() == Utf8 || to == Utf8) && src.Kind() != to
    ensures result == Transcoded(src, 0, to, fromOrTo, fromOrTo)
  {
    result := Empty(to);
    var begin := 0;
    ConcatEmpty(Transcoded(src, 0, to, fromOrTo, fromOrTo));
    while begin != src.Length()
      invariant begin <= src.Length() && result.Kind() == to
      invariant Concat(result, Transcoded(src, begin, to, fromOrTo, fromOrTo))
                == Transcoded(src, 0, to, fromOrTo, fromOrTo)
      decreases src.Length() - begin
    {
      var d := DecodeAt(src, begin, fromOrTo);
      if d.cp == Illegal || d.cp == Incomplete {
      } else {
        var enc := EncodeAs(to, d.cp, fromOrTo);
        ConcatAssoc(result, enc, Transcoded(src, d.next, to, fromOrTo, fromOrTo));
        result := Concat(result, enc);
      }
      begin := d.next;
    }
    ConcatEmpty(result);
  }

  /** utf_to_utf between two wider forms, each with its own byte order. */
  method UtfToUtfEndians(src: Buffer, to: Form, from: Endian, toE: Endian) returns (result: Buffer)
    requires src.Kind() != Utf8 && to != Utf8
    ensures result == Transcoded(src, 0, to, from, toE)
  {
    result := Empty(to);
    var begin := 0;
    ConcatEmpty(Transcoded(src, 0, to, from, toE));
    while begin != src.Length()
      invariant begin <= src.Length() && result.Kind() == to
      invariant Concat(result, Transcoded(src, begin, to, from, toE)) == Transcoded(src, 0, to, from, toE)
      decreases src.Length() - begin
    {
      var d := DecodeAt(src, begin, from);
      if d.cp == Illegal || d.cp == Incomplete {
      } else {
        var enc := EncodeAs(to, d.cp, toE);
        ConcatAssoc(result, enc, Transcoded(src, d.next, to, from, toE));
        result := Concat(result, enc);
      }
      begin := d.next;
    }
    ConcatEmpty(result);
  }
}
