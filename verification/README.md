# utfx in Dafny

utfx is a single C++ header, `include/utfx/utfx.hpp`, that converts text
between UTF-8, UTF-16 and UTF-32 and checks whether a byte string is UTF-8.
This project models its core: codepoint validation, byte swapping, the three
`utf_traits` codecs, both `utf_to_utf` drivers and `is_utf8`.

- `unicode.dfy` (module `Unicode`) holds:
  - the codepoint type and the two in-band error sentinels, `illegal` (0xFFFFFFFF) and `incomplete` (0xFFFFFFFE);
  - `is_valid_codepoint`;
  - `swap_bytes` for 16- and 32-bit units;
  - the `endian` selection. The host byte order `Native` is a constant, `Little`. A unit is swapped exactly when the requested order is not `Native`.
- `utf8.dfy` (module `Utf8Codec`) is the UTF-8 traits (RFC 3629, section 3): `trail_length`, `width`, `is_trail`/`is_lead`, the checked `decode`, `decode_valid` and `encode`. It also holds a corrected decoder, `DecodeStrict` (see Findings).
- `utf16.dfy` (module `Utf16Codec`) is the UTF-16 traits (RFC 2781, sections 2.1 and 2.2). Units are stored in either byte order.
- `utf32.dfy` (module `Utf32Codec`) is the UTF-32 traits.
- `transcode.dfy` (module `Transcode`) contains the two `utf_to_utf` loops. They are `while` loops over an index that append to an output buffer, and each is proved equal to `Transcoded`. `Transcoded` is a recursive definition of the output: the encodings of the values that decode without a sentinel, in order. The module also proves properties of conversions:
  - a conversion keeps exactly the decoded values;
  - well-formed UTF-16/UTF-32 input survives a round trip;
  - output in the opposite byte order is the byte-swapped output.
- `validate.dfy` (module `Validate`) contains the `is_utf8` loop, proved equal to "every step from the start position yields a scalar value". The start position is just past a byte order mark, when there is one.
- `samples.dfy` (module `Samples`) holds the texts of the library's tests and what the model proves about them.

Decoders are functions from a buffer and an index to a `Decoded(cp, next)` pair. The pair holds the codepoint or sentinel, plus the index after the units consumed. These functions stand for the source's iterator that is advanced by reference.

## Model

| member | source | states |
|---|---|---|
| Unicode.IsValidCodepoint | include/utfx/utfx.hpp:24-34 | the scalar values are exactly 0..0xD7FF and 0xE000..0x10FFFF |
| Unicode.ValidCodepointRange | include/utfx/utfx.hpp:24-34 | a value is valid exactly when it is at most 0x10FFFF and outside 0xD800..0xDFFF |
| Unicode.SentinelsAreNotValid | include/utfx/utfx.hpp:21-34 | neither `illegal` nor `incomplete` is a valid codepoint, so a sentinel can never be confused with a decoded value |
| Unicode.Swap16 | include/utfx/utfx.hpp:38-42 | the low byte of the result is the high byte of the argument and vice versa |
| Unicode.Swap32 | include/utfx/utfx.hpp:43-48 | byte k of the result is byte 3 - k of the argument, for each k |
| Unicode.Swap16Involutive | include/utfx/utfx.hpp:38-42 | swapping a 16-bit unit twice gives it back |
| Unicode.Swap32Involutive | include/utfx/utfx.hpp:43-48 | swapping a 32-bit unit twice gives it back |
| Unicode.Order16 | include/utfx/utfx.hpp:256-258 | a 16-bit unit in the native order is taken as it is; in the other order its two bytes are exchanged |
| Unicode.Order32 | include/utfx/utfx.hpp:340-342 | a 32-bit unit in the native order is taken as it is; in the other order byte k becomes byte 3 - k |
| Unicode.Order16Involutive | include/utfx/utfx.hpp:256-258 | converting a 16-bit unit from and back to the same byte order cancels out |
| Unicode.Order32Involutive | include/utfx/utfx.hpp:340-342 | the same for 32-bit units |
| Unicode.Order16Opposite | include/utfx/utfx.hpp:294-296 | the two byte orders differ by exactly one swap |
| Unicode.Order32Opposite | include/utfx/utfx.hpp:351-353 | the same for 32-bit units |
| Utf8Codec.TrailLength | include/utfx/utfx.hpp:68-92 | the result is in -1..3; it is 0 exactly for ASCII; every continuation byte 10xxxxxx gets -1 |
| Utf8Codec.TrailLengthAnnounces | include/utfx/utfx.hpp:68-92 | every byte with a non-negative trail length n is the first byte of the encoding of some scalar value of exactly n + 1 bytes |
| Utf8Codec.Width | include/utfx/utfx.hpp:94-103 | `width(v)` is 1 to 4 bytes; `WidthIsMinimal` says which |
| Utf8Codec.WidthIsMinimal | include/utfx/utfx.hpp:94-103 | `width(v)` is the shortest sequence length whose payload (7, 11, 16 or 21 bits) holds v |
| Utf8Codec.LeadAndTrailBytes | include/utfx/utfx.hpp:105-109 | `IsTrail` holds exactly for 0x80..0xBF; `IsLead` holds for every other byte, which includes C0, C1 and F5..FF, bytes `trail_length` refuses |
| Utf8Codec.LeadMaskIsLowBits | include/utfx/utfx.hpp:126 | the lead-byte mask is `(1 << (6 - trail_len)) - 1` |
| Utf8Codec.Decode | include/utfx/utfx.hpp:111-166 | the outcomes are: `incomplete` at the end; `illegal` after one byte for a byte that cannot lead; otherwise 1 to 4 bytes are consumed; `incomplete` only when the input runs out; a non-sentinel result is a valid codepoint whose width is the number of bytes consumed and what the lead announced |
| Utf8Codec.Finish | include/utfx/utfx.hpp:159-165 | the folded value is returned exactly when it is a valid codepoint of the announced width; otherwise the result is `illegal` |
| Utf8Codec.Accumulate | include/utfx/utfx.hpp:128-157 | the continuation-byte fall-through either reads all announced bytes or stops with a sentinel within them; it stops with `incomplete` only at the end of the input |
| Utf8Codec.AccumulateStep | include/utfx/utfx.hpp:143-147 | a continuation byte that is not ASCII has its low six bits shifted into the accumulator |
| Utf8Codec.DecodeValid | include/utfx/utfx.hpp:168-195 | the unchecked decoder consumes 1 byte below 0xC0, then 2, 3 or 4 bytes by the lead's range |
| Utf8Codec.ValidLengthOfLead | include/utfx/utfx.hpp:170-182 | on a lead byte, the unchecked decoder's length agrees with `trail_length + 1` |
| Utf8Codec.Encode | include/utfx/utfx.hpp:197-215 | `encode(c)` writes `width(c)` bytes; all bytes after the first are continuation bytes; for c up to U+10FFFF the first byte announces exactly the bytes that follow |
| Utf8Codec.AsciiRoundTrip | include/utfx/utfx.hpp:199-200 | a value below 0x80 is written as itself, and that byte decodes as ASCII |
| Utf8Codec.DecodeEncode | include/utfx/utfx.hpp:111-215 | for every valid codepoint, decoding its encoding anywhere in a buffer gives it back and advances by exactly `width(c)` |
| Utf8Codec.DecodeAt | include/utfx/utfx.hpp:111-166 | the same, for a buffer that holds the encoding at index p |
| Utf8Codec.DecodeTwo | include/utfx/utfx.hpp:149-165 | a two-byte sequence whose fold is a valid two-byte value decodes to it |
| Utf8Codec.DecodeThree | include/utfx/utfx.hpp:139-165 | the same for three-byte sequences |
| Utf8Codec.DecodeFour | include/utfx/utfx.hpp:129-165 | the same for four-byte sequences |
| Utf8Codec.DecodeValidAgrees | include/utfx/utfx.hpp:168-195 | wherever the checked decoder yields a value, the unchecked decoder has the bytes it needs and yields the same value and position |
| Utf8Codec.AsciiContinuationIsIllegal | include/utfx/utfx.hpp:133-136 | a continuation position holding an ASCII byte makes the step `illegal`, right after that byte |
| Utf8Codec.TruncatedIsIncomplete | include/utfx/utfx.hpp:130-132 | a sequence cut off by the end of the input, with no ASCII byte among the continuation bytes present, is `incomplete` and consumes the rest of the input |
| Utf8Codec.OverlongAndSurrogateAreIllegal | include/utfx/utfx.hpp:159-164 | an overlong E0 81 81, an encoded surrogate ED A0 80 and the lead C0 are refused |
| Utf8Codec.LeadByteTakenAsContinuation | include/utfx/utfx.hpp:153-157 | C3 C3 decodes without error to U+00C3, whose encoding is C3 83; the corrected decoder refuses it |
| Utf8Codec.DecodeStrict | include/utfx/utfx.hpp:111-166 | the corrected decoder has the outcome guarantees of `decode`: `incomplete` at the end; `illegal` after one byte for a byte that cannot lead; 1 to 4 bytes consumed; `incomplete` only when the input runs out; a non-sentinel result is a valid codepoint of the width consumed and announced |
| Utf8Codec.AccumulateStrict | include/utfx/utfx.hpp:128-157 | the corrected fall-through, which requires 10xxxxxx, has the same reading guarantees |
| Utf8Codec.DecodeStrictCanonical | include/utfx/utfx.hpp:111-215 | every value the corrected decoder accepts was read from exactly its own encoding |
| Utf8Codec.DecodeStrictEncode | include/utfx/utfx.hpp:111-215 | the corrected decoder reads back every encoded valid codepoint, anywhere in a buffer |
| Utf8Codec.AccumulateAgrees | include/utfx/utfx.hpp:128-157 | on 10xxxxxx continuation bytes the corrected and original fall-throughs agree |
| Utf8Codec.DecodeAgreesOnTrails | include/utfx/utfx.hpp:111-166 | the corrected and original decoders agree wherever the announced bytes are 10xxxxxx |
| Utf16Codec.CombineSurrogate | include/utfx/utfx.hpp:234-236 | a combined pair is always in U+10000..U+10FFFF |
| Utf16Codec.SurrogateBits | include/utfx/utfx.hpp:228-233 | high surrogates are exactly the units whose top six bits are 110110, low surrogates those with 110111 |
| Utf16Codec.TrailLength | include/utfx/utfx.hpp:238-246 | 1 exactly for a high surrogate, -1 exactly for a low surrogate, 0 exactly outside the surrogate range; what this means for decoding is `DecodeSucceedsIff` and `TrailUnitsAreRefused` |
| Utf16Codec.LeadAndTrailUnits | include/utfx/utfx.hpp:247-248 | `IsTrail` holds exactly when the trail length is -1, `IsLead` exactly when it is non-negative |
| Utf16Codec.TrailUnitsAreRefused | include/utfx/utfx.hpp:247-264 | decode refuses a unit on its own, after one unit, exactly when it is a trail unit |
| Utf16Codec.Width | include/utfx/utfx.hpp:289 | 2 units exactly from U+10000 on, otherwise 1; `Encode` writes that many and `DecodeEncode` advances by it |
| Utf16Codec.Decode | include/utfx/utfx.hpp:249-276 | the outcomes are: `incomplete` at the end; otherwise 1 or 2 units are consumed; `incomplete` only when the input runs out; a non-sentinel result is a valid codepoint of the width consumed |
| Utf16Codec.DecodeValid | include/utfx/utfx.hpp:277-288 | the unchecked decoder consumes 2 units after a surrogate and 1 otherwise |
| Utf16Codec.Encode | include/utfx/utfx.hpp:290-310 | `encode(u)` writes `width(u)` units; for a supplementary value, in the requested byte order, a high surrogate comes first and then a low one |
| Utf16Codec.SurrogateHalves | include/utfx/utfx.hpp:299-301 | the two halves of a supplementary value are a high and a low surrogate |
| Utf16Codec.SplitThenCombine | include/utfx/utfx.hpp:234-236 | combining the halves of a supplementary value gives the value back |
| Utf16Codec.CombineThenSplit | include/utfx/utfx.hpp:234-236 | splitting a combined surrogate pair gives the pair back |
| Utf16Codec.DecodeEncode | include/utfx/utfx.hpp:249-310 | for every valid codepoint and either byte order, decoding its encoding anywhere in a buffer gives it back and advances by `width(u)` |
| Utf16Codec.DecodeCanonical | include/utfx/utfx.hpp:249-276 | every value decode accepts was read from exactly its own encoding |
| Utf16Codec.LoneLowSurrogateIsIllegal | include/utfx/utfx.hpp:262-264 | a low surrogate in lead position is `illegal` after one unit |
| Utf16Codec.HighSurrogateAtEndIsIncomplete | include/utfx/utfx.hpp:265-267 | a high surrogate as the last unit is `incomplete` |
| Utf16Codec.UnpairedHighSurrogateIsIllegal | include/utfx/utfx.hpp:268-274 | a high surrogate followed by a non-low-surrogate is `illegal` after two units |
| Utf16Codec.DecodeSucceedsIff | include/utfx/utfx.hpp:249-276 | decode yields a value exactly on a non-surrogate unit or a high surrogate followed by a low one |
| Utf16Codec.EncodeOpposite | include/utfx/utfx.hpp:290-310 | encoding in the opposite byte order swaps every unit |
| Utf16Codec.DecodeOpposite | include/utfx/utfx.hpp:249-276 | swapping every unit and decoding in the opposite order gives the same result |
| Utf16Codec.DecodeValidAgreesNative | include/utfx/utfx.hpp:277-288 | in native byte order, the unchecked decoder agrees with decode wherever decode yields a value |
| Utf16Codec.DecodeValidMisreadsSwapped | include/utfx/utfx.hpp:286-287 | U+1F525 stored big-endian on a little-endian host is read by the unchecked decoder as U+1F5DD |
| Utf16Codec.DecodeValidSwapped | include/utfx/utfx.hpp:277-288 | the corrected unchecked decoder consumes 2 units after a surrogate and 1 otherwise |
| Utf16Codec.DecodeValidSwappedAgrees | include/utfx/utfx.hpp:277-288 | the corrected unchecked decoder agrees with decode in either byte order |
| Utf32Codec.TrailLength | include/utfx/utfx.hpp:317-322 | 0 exactly for a valid codepoint, -1 otherwise; what this means for decoding is `DecodeSucceedsIff` |
| Utf32Codec.EveryUnitLeads | include/utfx/utfx.hpp:323-324 | every unit is a lead and none is a trail, including the units whose trail length marks them as no scalar value |
| Utf32Codec.Width | include/utfx/utfx.hpp:348 | one unit per value; `Encode` writes exactly that many and `DecodeEncode` advances by it |
| Utf32Codec.Decode | include/utfx/utfx.hpp:333-347 | `incomplete` at the end; otherwise one unit is consumed; a non-sentinel result is valid |
| Utf32Codec.DecodeValid | include/utfx/utfx.hpp:325-332 | the unchecked decoder consumes one unit |
| Utf32Codec.Encode | include/utfx/utfx.hpp:349-356 | one unit, which read back in the requested byte order is the value |
| Utf32Codec.DecodeEncode | include/utfx/utfx.hpp:333-356 | for every valid codepoint and either byte order, decoding its encoding gives it back |
| Utf32Codec.DecodeCanonical | include/utfx/utfx.hpp:333-356 | every value decode accepts is read from its own encoding |
| Utf32Codec.DecodeSucceedsIff | include/utfx/utfx.hpp:333-347 | decode yields a value exactly when there is a unit and, read in the requested byte order, `trail_length` calls it a lead (a valid codepoint) |
| Utf32Codec.DecodeValidAgrees | include/utfx/utfx.hpp:325-347 | the unchecked decoder agrees with decode wherever decode yields a value |
| Utf32Codec.EncodeOpposite | include/utfx/utfx.hpp:349-356 | encoding in the opposite byte order swaps the unit |
| Utf32Codec.DecodeOpposite | include/utfx/utfx.hpp:333-347 | swapping the unit and decoding in the opposite order gives the same result |
| Transcode.DecodeAt | include/utfx/utfx.hpp:374-378 | one driver step by code-unit size: at least one unit is consumed before the end; a non-sentinel result is valid and has the form's width |
| Transcode.EncodeAs | include/utfx/utfx.hpp:382-386 | the output of one value has the target form and that form's width |
| Transcode.DecodeAtEncodeAs | include/utfx/utfx.hpp:374-386 | in every form, decoding the encoding of a valid value between any units gives it back |
| Transcode.DecodeAtCanonical | include/utfx/utfx.hpp:374-378 | in UTF-16 and UTF-32, a successful step reads exactly the encoding of its value |
| Transcode.Codepoints | include/utfx/utfx.hpp:372-388 | the values the decoding steps yield are all valid, and there are no more of them than input units |
| Transcode.TranscodedIsEncodeAll | include/utfx/utfx.hpp:372-388 | the output is the concatenated target encodings of the non-sentinel values decoded in order; sentinels are dropped |
| Transcode.CodepointsOfEncodeAllAfter | include/utfx/utfx.hpp:372-388 | the encodings of valid values, after any units, decode to exactly those values |
| Transcode.CodepointsOfEncodeAll | include/utfx/utfx.hpp:372-388 | the encodings of valid values decode to exactly those values, in every form and byte order |
| Transcode.CleanOfEncodeAll | include/utfx/utfx.hpp:372-388 | the encodings of valid values decode without a sentinel |
| Transcode.PreservesCodepoints | include/utfx/utfx.hpp:366-410 | decoding a conversion's output gives exactly the values its input decodes to |
| Transcode.TranscodeEncoded | include/utfx/utfx.hpp:366-410 | converting the encoding of valid values gives their encoding in the target form and byte order |
| Transcode.Utf8RoundTripOfEncoded | include/utfx/utfx.hpp:361-390 | the UTF-8 encoding of scalar values, converted to UTF-16 and back, is unchanged, in either byte order of the UTF-16 side |
| Transcode.CleanIsEncodeAll | include/utfx/utfx.hpp:249-347 | well-formed UTF-16/UTF-32 input is the encoding of the values it decodes to |
| Transcode.RoundTrip | include/utfx/utfx.hpp:366-410 | well-formed UTF-16/UTF-32 input converted to any form and back is unchanged |
| Transcode.Utf8RoundTripChangesInput | include/utfx/utfx.hpp:366-390 | C3 C3 converted to UTF-16 and back becomes C3 83 |
| Transcode.EncodeAllOpposite | include/utfx/utfx.hpp:294-305 | encoding values in the opposite byte order gives every unit byte-swapped |
| Transcode.TranscodedOpposite | include/utfx/utfx.hpp:392-410 | a conversion into the opposite output byte order gives the byte-swapped output |
| Transcode.EncodeAllAppend | include/utfx/utfx.hpp:382-386 | the output for two runs of values is the two outputs joined |
| Transcode.Utf8IgnoresByteOrder | include/utfx/utfx.hpp:384-385 | UTF-8 output does not depend on the byte order passed to the driver |
| Transcode.UtfToUtf | include/utfx/utfx.hpp:361-390 | the UTF-8 ↔ wide driver loop returns exactly `Transcoded` of its input, using one byte order for the wide side |
| Transcode.UtfToUtfEndians | include/utfx/utfx.hpp:392-410 | the wide ↔ wide driver loop returns exactly `Transcoded`, with separate input and output byte orders |
| Validate.BomEnd | include/utfx/utfx.hpp:467-474 | validation starts at 3 exactly when the input is longer than three bytes and begins with EF BB BF; otherwise it starts at 0 |
| Validate.IsUtf8 | include/utfx/utfx.hpp:464-482 | the result is true exactly when every decoding step from the start position yields a value and the steps reach the end |
| Validate.SkipsBom | include/utfx/utfx.hpp:467-474 | skipping the mark never rejects input that decodes cleanly from its first byte |
| Validate.AcceptsEncodedText | include/utfx/utfx.hpp:464-482 | the UTF-8 encoding of any valid values is accepted |
| Validate.AcceptsLeadAsContinuation | include/utfx/utfx.hpp:475-480 | C3 C3 is accepted |
| Validate.LeadLeadEncodesNothing | include/utfx/utfx.hpp:197-215 | no sequence of values, valid or not, encodes to C3 C3 |
| Samples.HelloUtf8Bytes | tests/unittests.cc:19-28 | 你好🔥! is E4 BD A0 E5 A5 BD F0 9F 94 A5 21 in UTF-8 |
| Samples.HelloUtf16Units | tests/unittests.cc:19-28 | 你好🔥! is 4F60 597D D83D DD25 0021 in UTF-16, byte-swapped in the other order |
| Samples.HelloUtf8ToUtf16 | tests/unittests.cc:24 | `utf8_to_utf16` of the test text gives its UTF-16 form, in either byte order |
| Samples.HelloUtf16ToUtf8 | tests/unittests.cc:23 | `utf16_to_utf8` of the test text gives its UTF-8 form, in either byte order |
| Samples.TextValid | tests/unittests.cc:47-52 | the 29 values of the format test's text are all valid |
| Samples.TextUtf8Encodes | tests/unittests.cc:47-52 | `utf8_win` is the UTF-8 encoding of the text |
| Samples.TextUtf16Encodes | tests/unittests.cc:31-37 | `utf16le_win`, read as units by a little-endian host, is the little-endian UTF-16 encoding of the text |
| Samples.TextUtf16Swapped | tests/unittests.cc:39-45 | `utf16be_win` holds the units of `utf16le_win` byte-swapped |
| Samples.TextUtf16BeEncodes | tests/unittests.cc:39-45 | `utf16be_win` is the big-endian UTF-16 encoding of the text |
| Samples.Utf8WinToUtf16 | tests/unittests.cc:54-74 | `utf8_win` converts to `utf16le_win` natively and to `utf16be_win` with the big byte order |
| Samples.Utf16WinToUtf8 | tests/unittests.cc:76-81 | `utf16le_win` natively, and `utf16be_win` with the big byte order, convert to `utf8_win` |
| Samples.AcceptsUtf8Win | tests/unittests.cc:85 | `is_utf8` accepts `utf8_win` |
| Samples.RejectsUtf16Sample | tests/unittests.cc:86 | `is_utf8` rejects `utf16le_win` |

## Left out

- The `endian` enumerators' platform values (include/utfx/utfx.hpp:8-18): the host order is the constant `Native`, set to `Little`. The test samples are stated for a little-endian host, as the tests assume.
- The `_WIN32` and other `utf8_to_utf16` / `utf16_to_utf8` wrappers (include/utfx/utfx.hpp:412-462): they only choose a character type and call `utf_to_utf`. The sample lemmas state their results through `Transcoded` directly.
- `result.reserve(...)`, the back-insert iterator and the `enable_if` overload constraints: capacity hints and C++ dispatch. Output is a value that the loops extend, and the form is chosen by the `Buffer` variant. The overload constraints appear as `requires` on the two driver methods.
- The commented-out `throw conversion_error()`: the code drops sentinel steps silently, and so does the model.
- Iterators are indices. An encoder returns the sequence of units it would write through its output iterator.
- `is_utf16` and the `_utf8` / `_utf16` literal operators, which the tests call, are not part of this model: they are not defined in the header. Neither is `emoji_sequences.h`. Its UTF-8 to UTF-16 and back round trip is covered in general by `Transcode.Utf8RoundTripOfEncoded`, for text that encodes scalar values.
- Utf8Codec.DecodeValid requires the bytes its first byte announces to be present. The source reads them unchecked, past the end if need be, so running out is undefined behaviour there.
- Utf16Codec.DecodeValid requires a second unit after a surrogate, for the same reason.
- Transcode.DecodeAtCanonical holds only for UTF-16 and UTF-32, because UTF-8 decoding accepts non-canonical continuation bytes (Findings, first row).
- Transcode.CleanIsEncodeAll is likewise stated for UTF-16 and UTF-32 only.
- Transcode.RoundTrip is stated for UTF-16 and UTF-32 input only. Transcode.Utf8RoundTripChangesInput shows that UTF-8 input can change.
- The conversion drivers and `is_utf8` use the decoder as written, not `DecodeStrict`, because they model what the library does.
- The comments at include/utfx/utfx.hpp:25 and 88 cite "RFC3269". The standard meant is RFC 3629.

## Findings

| source | as written | input that shows it | evidently intended | confidence | as-written member | corrected member |
|---|---|---|---|---|---|---|
| include/utfx/utfx.hpp:134, 144, 154 | a continuation byte is refused only when `trail_length` calls it ASCII, so lead bytes C2..F4 pass as continuation bytes and contribute their low six bits | C3 C3 decodes to U+00C3 over two bytes; `is_utf8` accepts it; a round trip through UTF-16 turns it into C3 83 | refuse any continuation byte that is not 10xxxxxx (`is_trail`, lines 105-108, which decode never calls) | not executed | Utf8Codec.LeadByteTakenAsContinuation | Utf8Codec.DecodeStrictCanonical |
| include/utfx/utfx.hpp:286-287 | UTF-16 `decode_valid` swaps the first unit for a non-native byte order but not the second | units 3DD8 25DD (U+1F525 stored big-endian) read with the big byte order on a little-endian host give U+1F5DD instead of U+1F525 | swap the second unit as `decode` does (lines 269-271) | not executed | Utf16Codec.DecodeValidMisreadsSwapped | Utf16Codec.DecodeValidSwappedAgrees |
