/** Codepoints, the two in-band error sentinels, byte order and byte swapping:
    the helpers every codec of utfx is built on. */
module Unicode {

  /** A codepoint is an unsigned 32-bit value; decoders also use it to carry
      one of the two sentinels below. */
  type Codepoint = bv32

  /** Returned by a decoder for a structurally invalid sequence. */
  const Illegal: Codepoint := 0xFFFF_FFFF

  /** Returned by a decoder when the input ends inside a sequence. */
  const Incomplete: Codepoint := 0xFFFF_FFFE

  predicate IsSentinel(c: Codepoint) {
    c == Illegal || c == Incomplete
  }

  /** A Unicode scalar value: at most U+10FFFF and outside the surrogate
      range U+D800..U+DFFF (Unicode Standard, section 3.9; RFC 3629). */
  predicate IsValidCodepoint(v: Codepoint)
    ensures IsValidCodepoint(v) <==> v <= 0xD7FF || 0xE000 <= v <= 0x10FFFF
  {
    if v > 0x10FFFF then false
    else if 0xD800 <= v && v <= 0xDFFF then false
    else true
  }

  lemma ValidCodepointRange(v: Codepoint)
    ensures IsValidCodepoint(v) <==> v as int <= 0x10FFFF && !(0xD800 <= v as int <= 0xDFFF)
  {
  }

  /** Neither sentinel can be mistaken for a decoded scalar value. */
  lemma SentinelsAreNotValid(c: Codepoint)
    ensures IsSentinel(c) ==> !IsValidCodepoint(c)
  {
  }

  /** The result of one decoding step: the codepoint (or a sentinel) and the
      index just past the code units the step consumed. */
  datatype Decoded = Decoded(cp: Codepoint, next: nat)

  // ---------------------------------------------------------------------
  // Byte swapping

  function LowByte16(x: bv16): bv8 {
    (x & 0xFF) as bv8
  }

  function HighByte16(x: bv16): bv8 {
    (x >> 8) as bv8
  }

  /** Byte k (0 = least significant) of a 32-bit value. */
  function ByteOf(x: bv32, k: nat): bv8
    requires k < 4
  {
    if k == 0 then (x & 0xFF) as bv8
    else if k == 1 then ((x >> 8) & 0xFF) as bv8
    else if k == 2 then ((x >> 16) & 0xFF) as bv8
    else (x >> 24) as bv8
  }

  /** Reverses the two bytes of a 16-bit unit. */
  function Swap16(x: bv16): (r: bv16)
    ensures LowByte16(r) == HighByte16(x) && HighByte16(r) == LowByte16(x)
  {
    (x << 8) | (x >> 8)
  }

  /** Reverses the four bytes of a 32-bit unit. */
  function Swap32(x: bv32): (r: bv32)
    ensures ByteOf(r, 0) == ByteOf(x, 3) && ByteOf(r, 1) == ByteOf(x, 2)
    ensures ByteOf(r, 2) == ByteOf(x, 1) && ByteOf(r, 3) == ByteOf(x, 0)
  {
    ((x & 0x0000_00FF) << 24) | ((x & 0x0000_FF00) << 8) |
    ((x & 0x00FF_0000) >> 8) | ((x & 0xFF00_0000) >> 24)
  }

  lemma Swap16Involutive(x: bv16)
    ensures Swap16(Swap16(x)) == x
  {
  }

  lemma Swap32Involutive(x: bv32)
    ensures Swap32(Swap32(x)) == x
  {
  }

  // ---------------------------------------------------------------------
  // Byte order

  datatype Endian = Little | Big

  /** The byte order of the host; a build-time configuration constant. */
  const Native: Endian := Little

  function Opposite(e: Endian): (r: Endian)
    ensures r != e
  {
    if e == Little then Big else Little
  }

  /** A 16-bit unit as stored in byte order e, seen in native order (and
      back: the conversion is its own inverse). Swaps exactly when e is not
      the native order. */
  function Order16(w: bv16, e: Endian): (r: bv16)
    ensures e == Native ==> r == w
    ensures e != Native ==> LowByte16(r) == HighByte16(w) && HighByte16(r) == LowByte16(w)
  {
    if e != Native then Swap16(w) else w
  }

  /** The same for a 32-bit unit. */
  function Order32(w: bv32, e: Endian): (r: bv32)
    ensures e == Native ==> r == w
    ensures e != Native ==> ByteOf(r, 0) == ByteOf(w, 3) && ByteOf(r, 1) == ByteOf(w, 2)
    ensures e != Native ==> ByteOf(r, 2) == ByteOf(w, 1) && ByteOf(r, 3) == ByteOf(w, 0)
  {
    if e != Native then Swap32(w) else w
  }

  /** Converting to and from the same byte order cancels out. */
  lemma Order16Involutive(w: bv16, e: Endian)
    ensures Order16(Order16(w, e), e) == w
  {
    Swap16Involutive(w);
  }

  lemma Order32Involutive(w: bv32, e: Endian)
    ensures Order32(Order32(w, e), e) == w
  {
    Swap32Involutive(w);
  }

  /** The two byte orders differ by exactly one swap. */
  lemma Order16Opposite(w: bv16, e: Endian)
    ensures Order16(w, Opposite(e)) == Order16(Swap16(w), e)
  {
    Swap16Involutive(w);
  }

  lemma Order32Opposite(w: bv32, e: Endian)
    ensures Order32(w, Opposite(e)) == Order32(Swap32(w), e)
  {
    Swap32Involutive(w);
  }
}
