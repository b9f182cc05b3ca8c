/** The texts of the library's tests, and what the model says about each:
    the conversions they are expected to give and the validator's verdict. */
module Samples {
  import opened Unicode
  import opened Transcode
  import Utf8Codec
  import Utf16Codec
  import Validate

  // ---------------------------------------------------------------------
  // The round-trip test text, "你好🔥!"

  function HelloCodepoints(): seq<Codepoint> {
    [0x4F60, 0x597D, 0x1_F525, 0x21]
  }

  function HelloUtf8(): seq<Utf8Codec.Byte> {
    [0xE4, 0xBD, 0xA0, 0xE5, 0xA5, 0xBD, 0xF0, 0x9F, 0x94, 0xA5, 0x21]
  }

  /** The UTF-16 units as values; stored in big-endian order on a
      little-endian host, each unit appears byte-swapped. */
  function HelloUtf16(e: Endian): seq<Utf16Codec.Unit> {
    if e == Native then [0x4F60, 0x597D, 0xD83D, 0xDD25, 0x0021]
    else [0x604F, 0x7D59, 0x3DD8, 0x25DD, 0x2100]
  }

  lemma HelloValid()
    ensures forall i | 0 <= i < |HelloCodepoints()| :: IsValidCodepoint(HelloCodepoints()[i])
  {
  }

  lemma HelloUtf8Bytes(e: Endian)
    ensures EncodeAll(Utf8, HelloCodepoints(), e) == Bytes(HelloUtf8())
  {
    var cs := HelloCodepoints();
    assert cs[1..][1..][1..][1..] == [];
    assert Utf8Codec.Encode(0x4F60) == [0xE4, 0xBD, 0xA0];
    assert Utf8Codec.Encode(0x597D) == [0xE5, 0xA5, 0xBD];
    assert Utf8Codec.Encode(0x1_F525) == [0xF0, 0x9F, 0x94, 0xA5];
    assert Utf8Codec.Encode(0x21) == [0x21];
  }

  lemma HelloUtf16Units(e: Endian)
    ensures EncodeAll(Utf16, HelloCodepoints(), e) == Units16(HelloUtf16(e))
  {
    var cs := HelloCodepoints();
    assert cs[1..][1..][1..][1..] == [];
    assert Utf16Codec.Encode(0x1_F525, e) == HelloUtf16(e)[2..4];
  }

  /** The conversions the library's tests check, both ways and in both
      byte orders for the UTF-16 side. */
  lemma HelloUtf8ToUtf16(e: Endian)
    ensures Transcoded(Bytes(HelloUtf8()), 0, Utf16, e, e) == Units16(HelloUtf16(e))
  {
    HelloValid();
    HelloUtf8Bytes(e);
    HelloUtf16Units(e);
    TranscodeEncoded(Utf8, Utf16, HelloCodepoints(), e, e);
  }

  lemma HelloUtf16ToUtf8(e: Endian)
    ensures Transcoded(Units16(HelloUtf16(e)), 0, Utf8, e, e) == Bytes(HelloUtf8())
  {
    HelloValid();
    HelloUtf8Bytes(e);
    HelloUtf16Units(e);
    TranscodeEncoded(Utf16, Utf8, HelloCodepoints(), e, e);
  }

  // ---------------------------------------------------------------------
  // The sample text of the format tests, "你好啊🫶🧜‍♀️💯123", two line breaks,
  // "测试unicode", two line breaks: 29 values, in eight pieces

  const Pieces: seq<seq<Codepoint>> := [
      [0x4F60, 0x597D, 0x554A, 0x1_FAF6],
      [0x1_F9DC, 0x200D, 0x2640, 0xFE0F],
      [0x1_F4AF, 0x31, 0x32, 0x33],
      [0x0D, 0x0A, 0x0D, 0x0A],
      [0x6D4B, 0x8BD5, 0x75, 0x6E],
      [0x69, 0x63, 0x6F, 0x64],
      [0x65, 0x0D],
      [0x0A, 0x0D, 0x0A]]

  /** Each piece of utf8_win. */
  const PiecesUtf8: seq<seq<Utf8Codec.Byte>> := [
      [0xE4, 0xBD, 0xA0, 0xE5, 0xA5, 0xBD, 0xE5, 0x95, 0x8A, 0xF0, 0x9F, 0xAB, 0xB6],
      [0xF0, 0x9F, 0xA7, 0x9C, 0xE2, 0x80, 0x8D, 0xE2, 0x99, 0x80, 0xEF, 0xB8, 0x8F],
      [0xF0, 0x9F, 0x92, 0xAF, 0x31, 0x32, 0x33],
      [0x0D, 0x0A, 0x0D, 0x0A],
      [0xE6, 0xB5, 0x8B, 0xE8, 0xAF, 0x95, 0x75, 0x6E],
      [0x69, 0x63, 0x6F, 0x64],
      [0x65, 0x0D],
      [0x0A, 0x0D, 0x0A]]

  /** Each piece of utf16le_win, its bytes taken in pairs as 16-bit units
      by a little-endian host. */
  const PiecesUtf16Le: seq<seq<Utf16Codec.Unit>> := [
      [0x4F60, 0x597D, 0x554A, 0xD83E, 0xDEF6],
      [0xD83E, 0xDDDC, 0x200D, 0x2640, 0xFE0F],
      [0xD83D, 0xDCAF, 0x0031, 0x0032, 0x0033],
      [0x000D, 0x000A, 0x000D, 0x000A],
      [0x6D4B, 0x8BD5, 0x0075, 0x006E],
      [0x0069, 0x0063, 0x006F, 0x0064],
      [0x0065, 0x000D],
      [0x000A, 0x000D, 0x000A]]

  /** Each piece of utf16be_win, read in the same way. */
  const PiecesUtf16Be: seq<seq<Utf16Codec.Unit>> := [
      [0x604F, 0x7D59, 0x4A55, 0x3ED8, 0xF6DE],
      [0x3ED8, 0xDCDD, 0x0D20, 0x4026, 0x0FFE],
      [0x3DD8, 0xAFDC, 0x3100, 0x3200, 0x3300],
      [0x0D00, 0x0A00, 0x0D00, 0x0A00],
      [0x4B6D, 0xD58B, 0x7500, 0x6E00],
      [0x6900, 0x6300, 0x6F00, 0x6400],
      [0x6500, 0x0D00],
      [0x0A00, 0x0D00, 0x0A00]]

  /** The first n pieces, joined. */
  function Text(n: nat): seq<Codepoint>
    requires n <= 8
  {
    if n == 0 then [] else Text(n - 1) + Pieces[n - 1]
  }

  function TextUtf8(n: nat): seq<Utf8Codec.Byte>
    requires n <= 8
  {
    if n == 0 then [] else TextUtf8(n - 1) + PiecesUtf8[n - 1]
  }

  function TextUtf16Le(n: nat): seq<Utf16Codec.Unit>
    requires n <= 8
  {
    if n == 0 then [] else TextUtf16Le(n - 1) + PiecesUtf16Le[n - 1]
  }

  function TextUtf16Be(n: nat): seq<Utf16Codec.Unit>
    requires n <= 8
  {
    if n == 0 then [] else TextUtf16Be(n - 1) + PiecesUtf16Be[n - 1]
  }

  /** Each piece of the text holds scalar values only, and the pieces of
      utf8_win and utf16le_win are its encodings. */
  lemma PieceEncodes(k: nat)
    requires k < 8
    ensures forall i | 0 <= i < |Pieces[k]| :: IsValidCodepoint(Pieces[k][i])
    ensures EncodeAll(Utf8, Pieces[k], Little) == Bytes(PiecesUtf8[k])
    ensures EncodeAll(Utf16, Pieces[k], Little) == Units16(PiecesUtf16Le[k])
  {
    match k
    case 0 => Piece0Valid(); Piece0Utf8(); Piece0Utf16();
    case 1 => Piece1Valid(); Piece1Utf8(); Piece1Utf16();
    case 2 => Piece2Valid(); Piece2Utf8(); Piece2Utf16();
    case 3 => Piece3Valid(); Piece3Utf8(); Piece3Utf16();
    case 4 => Piece4Valid(); Piece4Utf8(); Piece4Utf16();
    case 5 => Piece5Valid(); Piece5Utf8(); Piece5Utf16();
    case 6 => Piece6Valid(); Piece6Utf8(); Piece6Utf16();
    case 7 => Piece7Valid(); Piece7Utf8(); Piece7Utf16();
  }

  /** The pieces of utf16be_win are those of utf16le_win, byte-swapped. */
  lemma PieceSwapped(k: nat)
    requires k < 8
    ensures PiecesUtf16Be[k] == Utf16Codec.SwapAll(PiecesUtf16Le[k])
  {
    match k
    case 0 => Piece0Swapped();
    case 1 => Piece1Swapped();
    case 2 => Piece2Swapped();
    case 3 => Piece3Swapped();
    case 4 => Piece4Swapped();
    case 5 => Piece5Swapped();
    case 6 => Piece6Swapped();
    case 7 => Piece7Swapped();
  }

  // The pieces one by one, each computed from its literals.

  lemma Piece0Valid()
    ensures forall i | 0 <= i < |Pieces[0]| :: IsValidCodepoint(Pieces[0][i])
  {
  }

  lemma Piece0Utf8()
    ensures EncodeAll(Utf8, Pieces[0], Little) == Bytes(PiecesUtf8[0])
  {
  }

  lemma Piece0Utf16()
    ensures EncodeAll(Utf16, Pieces[0], Little) == Units16(PiecesUtf16Le[0])
  {
  }

  lemma Piece0Swapped()
    ensures PiecesUtf16Be[0] == Utf16Codec.SwapAll(PiecesUtf16Le[0])
  {
  }

  lemma Piece1Valid()
    ensures forall i | 0 <= i < |Pieces[1]| :: IsValidCodepoint(Pieces[1][i])
  {
  }

  lemma Piece1Utf8()
    ensures EncodeAll(Utf8, Pieces[1], Little) == Bytes(PiecesUtf8[1])
  {
  }

  lemma Piece1Utf16()
    ensures EncodeAll(Utf16, Pieces[1], Little) == Units16(PiecesUtf16Le[1])
  {
  }

  lemma Piece1Swapped()
    ensures PiecesUtf16Be[1] == Utf16Codec.SwapAll(PiecesUtf16Le[1])
  {
  }

  lemma Piece2Valid()
    ensures forall i | 0 <= i < |Pieces[2]| :: IsValidCodepoint(Pieces[2][i])
  {
  }

  lemma Piece2Utf8()
    ensures EncodeAll(Utf8, Pieces[2], Little) == Bytes(PiecesUtf8[2])
  {
  }

  lemma Piece2Utf16()
    ensures EncodeAll(Utf16, Pieces[2], Little) == Units16(PiecesUtf16Le[2])
  {
  }

  lemma Piece2Swapped()
    ensures PiecesUtf16Be[2] == Utf16Codec.SwapAll(PiecesUtf16Le[2])
  {
  }

  lemma Piece3Valid()
    ensures forall i | 0 <= i < |Pieces[3]| :: IsValidCodepoint(Pieces[3][i])
  {
  }

  lemma Piece3Utf8()
    ensures EncodeAll(Utf8, Pieces[3], Little) == Bytes(PiecesUtf8[3])
  {
  }

  lemma Piece3Utf16()
    ensures EncodeAll(Utf16, Pieces[3], Little) == Units16(PiecesUtf16Le[3])
  {
  }

  lemma Piece3Swapped()
    ensures PiecesUtf16Be[3] == Utf16Codec.SwapAll(PiecesUtf16Le[3])
  {
  }

  lemma Piece4Valid()
    ensures forall i | 0 <= i < |Pieces[4]| :: IsValidCodepoint(Pieces[4][i])
  {
  }

  lemma Piece4Utf8()
    ensures EncodeAll(Utf8, Pieces[4], Little) == Bytes(PiecesUtf8[4])
  {
  }

  lemma Piece4Utf16()
    ensures EncodeAll(Utf16, Pieces[4], Little) == Units16(PiecesUtf16Le[4])
  {
  }

  lemma Piece4Swapped()
    ensures PiecesUtf16Be[4] == Utf16Codec.SwapAll(PiecesUtf16Le[4])
  {
  }

  lemma Piece5Valid()
    ensures forall i | 0 <= i < |Pieces[5]| :: IsValidCodepoint(Pieces[5][i])
  {
  }

  lemma Piece5Utf8()
    ensures EncodeAll(Utf8, Pieces[5], Little) == Bytes(PiecesUtf8[5])
  {
  }

  lemma Piece5Utf16()
    ensures EncodeAll(Utf16, Pieces[5], Little) == Units16(PiecesUtf16Le[5])
  {
  }

  lemma Piece5Swapped()
    ensures PiecesUtf16Be[5] == Utf16Codec.SwapAll(PiecesUtf16Le[5])
  {
  }

  lemma Piece6Valid()
    ensures forall i | 0 <= i < |Pieces[6]| :: IsValidCodepoint(Pieces[6][i])
  {
  }

  lemma Piece6Utf8()
    ensures EncodeAll(Utf8, Pieces[6], Little) == Bytes(PiecesUtf8[6])
  {
  }

  lemma Piece6Utf16()
    ensures EncodeAll(Utf16, Pieces[6], Little) == Units16(PiecesUtf16Le[6])
  {
  }

  lemma Piece6Swapped()
    ensures PiecesUtf16Be[6] == Utf16Codec.SwapAll(PiecesUtf16Le[6])
  {
  }

  lemma Piece7Valid()
    ensures forall i | 0 <= i < |Pieces[7]| :: IsValidCodepoint(Pieces[7][i])
  {
  }

  lemma Piece7Utf8()
    ensures EncodeAll(Utf8, Pieces[7], Little) == Bytes(PiecesUtf8[7])
  {
  }

  lemma Piece7Utf16()
    ensures EncodeAll(Utf16, Pieces[7], Little) == Units16(PiecesUtf16Le[7])
  {
  }

  lemma Piece7Swapped()
    ensures PiecesUtf16Be[7] == Utf16Codec.SwapAll(PiecesUtf16Le[7])
  {
  }

  /** The values of the text are scalar values. */
  lemma {:induction false} TextValid(n: nat)
    requires n <= 8
    ensures forall i | 0 <= i < |Text(n)| :: IsValidCodepoint(Text(n)[i])
  {
    if n > 0 {
      TextValid(n - 1);
      PieceEncodes(n - 1);
    }
  }

  /** utf8_win is the UTF-8 encoding of the text. */
  lemma {:induction false} TextUtf8Encodes(n: nat)
    requires n <= 8
    ensures EncodeAll(Utf8, Text(n), Little) == Bytes(TextUtf8(n))
  {
    if n > 0 {
      TextUtf8Encodes(n - 1);
      PieceEncodes(n - 1);
      EncodeAllAppend(Utf8, Text(n - 1), Pieces[n - 1], Little);
    }
  }

  /** utf16le_win is the little-endian UTF-16 encoding of the text. */
  lemma {:induction false} TextUtf16Encodes(n: nat)
    requires n <= 8
    ensures EncodeAll(Utf16, Text(n), Little) == Units16(TextUtf16Le(n))
  {
    if n > 0 {
      TextUtf16Encodes(n - 1);
      PieceEncodes(n - 1);
      EncodeAllAppend(Utf16, Text(n - 1), Pieces[n - 1], Little);
    }
  }

  /** utf16be_win holds the units of utf16le_win with their bytes swapped. */
  lemma {:induction false} TextUtf16Swapped(n: nat)
    requires n <= 8
    ensures TextUtf16Be(n) == Utf16Codec.SwapAll(TextUtf16Le(n))
  {
    if n > 0 {
      TextUtf16Swapped(n - 1);
      PieceSwapped(n - 1);
      SwappedConcat(Units16(TextUtf16Le(n - 1)), Units16(PiecesUtf16Le[n - 1]));
    }
  }

  /** utf16be_win is the big-endian encoding of the text. */
  lemma TextUtf16BeEncodes()
    ensures EncodeAll(Utf16, Text(8), Big) == Units16(TextUtf16Be(8))
  {
    TextUtf16Encodes(8);
    TextUtf16Swapped(8);
    EncodeAllOpposite(Utf16, Text(8), Little);
  }

  /** The four conversions of the format test, on a little-endian host:
      UTF-8 to UTF-16 in either byte order, and back. */
  lemma Utf8WinToUtf16()
    ensures Transcoded(Bytes(TextUtf8(8)), 0, Utf16, Little, Little) == Units16(TextUtf16Le(8))
    ensures Transcoded(Bytes(TextUtf8(8)), 0, Utf16, Big, Big) == Units16(TextUtf16Be(8))
  {
    TextValid(8);
    TextUtf8Encodes(8);
    TextUtf16Encodes(8);
    Utf8IgnoresByteOrder(Text(8), Big);
    TextUtf16BeEncodes();
    TranscodeEncoded(Utf8, Utf16, Text(8), Little, Little);
    TranscodeEncoded(Utf8, Utf16, Text(8), Big, Big);
  }

  lemma Utf16WinToUtf8()
    ensures Transcoded(Units16(TextUtf16Le(8)), 0, Utf8, Little, Little) == Bytes(TextUtf8(8))
    ensures Transcoded(Units16(TextUtf16Be(8)), 0, Utf8, Big, Big) == Bytes(TextUtf8(8))
  {
    TextValid(8);
    TextUtf8Encodes(8);
    TextUtf16Encodes(8);
    Utf8IgnoresByteOrder(Text(8), Big);
    TextUtf16BeEncodes();
    TranscodeEncoded(Utf16, Utf8, Text(8), Little, Little);
    TranscodeEncoded(Utf16, Utf8, Text(8), Big, Big);
  }

  /** is_utf8 accepts utf8_win. */
  lemma AcceptsUtf8Win()
    ensures Clean(Bytes(TextUtf8(8)), Validate.BomEnd(TextUtf8(8)), Native)
  {
    TextValid(8);
    TextUtf8Encodes(8);
    Validate.AcceptsEncodedText(Text(8));
  }

  // ---------------------------------------------------------------------
  // is_utf8 on UTF-16 input

  /** The bytes of utf16le_win. */
  function Utf16leSample(): seq<Utf8Codec.Byte> {
    [0x60, 0x4f, 0x7d, 0x59, 0x4a, 0x55, 0x3e, 0xd8, 0xf6, 0xde, 0x3e] +
    [0xd8, 0xdc, 0xdd, 0x0d, 0x20, 0x40, 0x26, 0x0f, 0xfe, 0x3d, 0xd8,
     0xaf, 0xdc, 0x31, 0x00, 0x32, 0x00, 0x33, 0x00, 0x0d, 0x00, 0x0a,
     0x00, 0x0d, 0x00, 0x0a, 0x00, 0x4b, 0x6d, 0xd5, 0x8b, 0x75, 0x00,
     0x6e, 0x00, 0x69, 0x00, 0x63, 0x00, 0x6f, 0x00, 0x64, 0x00, 0x65,
     0x00, 0x0d, 0x00, 0x0a, 0x00, 0x0d, 0x00, 0x0a, 0x00]
  }

  /** The UTF-16 sample is rejected, at its tenth byte: 0xDE announces a
      continuation byte and 0x3E is ASCII. The two bytes before it,
      0xD8 0xF6, pass as U+0636 although 0xF6 is not a continuation byte. */
  lemma RejectsUtf16Sample()
    ensures !Clean(Bytes(Utf16leSample()), Validate.BomEnd(Utf16leSample()), Native)
  {
    var s := Utf16leSample();
    var b := Bytes(s);
    var head: seq<Utf8Codec.Byte> := [0x60, 0x4f, 0x7d, 0x59, 0x4a, 0x55, 0x3e, 0xd8, 0xf6, 0xde, 0x3e];
    assert forall i | 0 <= i < |head| :: s[i] == head[i];
    assert Utf8Codec.Decode(s, 9).cp == Illegal;
    assert !Clean(b, 9, Native);
    assert Utf8Codec.Decode(s, 7) == Decoded(0x636, 9);
    assert !Clean(b, 7, Native);
    assert !Clean(b, 6, Native) && !Clean(b, 5, Native) && !Clean(b, 4, Native);
    assert !Clean(b, 3, Native) && !Clean(b, 2, Native) && !Clean(b, 1, Native);
  }
}
