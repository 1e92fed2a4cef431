# PhysicsFS Unicode layer in Dafny

A model of PhysicsFS's text layer `src/physfs_unicode.c`. It covers:

- the UTF-8 decoder `utf8codepoint`;
- the UTF-8 encoder `utf8fromcodepoint`;
- the seven bulk converters between UTF-8 and UCS-4, UCS-2, UTF-16 and Latin-1;
- the case-fold lookup `locate_case_fold_mapping` and the per-codepoint comparator `utf8codepointcmp`;
- the four case-insensitive string comparators: `__PHYSFS_utf8stricmp`, `__PHYSFS_utf8strnicmp`, `__PHYSFS_stricmpASCII` and `__PHYSFS_strnicmpASCII`.

Each part is proved against a specification.

## How the C is represented

- **Strings.** A C string is a `seq` of bytes (`byte`), 16-bit units (`u16`) or 32-bit units (`u32`). A C pointer is an index into it. Reading past the end of the sequence yields 0, through `ByteAt`, `Unit16At` and `Unit32At`. So a sequence with or without an explicit terminator stands for the same NUL-terminated string. The six-byte decoder branch, which can step over a terminator, then stays well defined.
- **Decoder.** `utf8codepoint` only moves its cursor, so `Utf8Decode.Decode` is a function from (buffer, cursor) to (value, new cursor). Bit masks and shifts become ranges, products and differences on bytes whose top bits are known.
- **Encoder.** `utf8fromcodepoint` writes through `*_dst` and updates `*_len`. It is the method `Utf8Encode.EncodeInto`, which writes into an `array<byte>` at a position and returns the new position and the new remaining length.
- **Converters.** They are methods with `while` loops that write into arrays, given the caller's `len` in bytes. The body of each converter's loop, after its terminator test, is a method of its own (`Ucs4Pass`, `Ucs2Pass`, `Utf16Pass`, `FromUnitsPass`, `FromUtf16Pass`). Each is proved to keep the written prefix equal to the start of the converter's specification function.
- **Case fold.** `locate_case_fold_mapping` fills a caller array `to[3]`. `CaseFold.LocateCaseFoldMapping` returns the triple (`Folded`) instead.
- **The fold table.** It is the generated `case_fold_hash`, which is not part of this model. It is a parameter `t: FoldTable`: 256 buckets of `FoldMapping` entries. `WellFormedTable` states what the generator guarantees and is assumed only by the lemmas that need it. `SampleTable` is a two-entry instance used for examples.
- **Comparators.** They are methods with the source's loops, each proved equal to a recursive function (`StricmpFrom`, `StrnicmpFrom`, `StricmpAsciiFrom`, `StrnicmpAsciiFrom`). The order properties are lemmas about those functions. The body of the `__PHYSFS_utf8strnicmp` loop is the method `StrnicmpPass`.
- **Hash.** The bucket index `(from ^ (from >> 8)) & 0xFF` is computed bit by bit on integers (`CaseFold.Xor`).

Three deviations from RFC 3629 and RFC 2781 are reproduced as written, not corrected:

- The decoder and the encoder single out only seven surrogate values (D800, DB7F, DB80, DBFF, DC00, DF80, DFFF), not the whole range D800-DFFF.
- The obsolete six-byte form moves the cursor 7 bytes, not 6.
- UTF-16 to UTF-8 combines a surrogate pair without adding 0x10000.

Lemmas exhibit each of the three with a concrete input: `SevenSurrogatesRefused`, `DecodeSixByteOvershoot`, `Utf16PairMissesOffset`, `Utf16PairEmbeddedNul` and `Utf16PairComesBackShifted`.

## Model

| member | source | states |
|---|---|---|
| Utf8Decode.Decode | src/physfs_unicode.c:36-189 | The result is 0 exactly at a NUL byte, and then the cursor does not move. Any other result moves the cursor forward by 1 to 7 bytes. A result other than 0xFFFFFFFF is a value the encoder writes unchanged, and the cursor moved by exactly its encoded length. No NUL byte is consumed, except that the six-byte form steps over offset 6. |
| Utf8Decode.Codepoints | src/physfs_unicode.c:36-189 | The values a decode loop sees before the terminator: each is non-zero and is either the sentinel or encodable. |
| Utf8Decode.DecodeAscii | src/physfs_unicode.c:46-50 | A byte 1..127 decodes to itself and advances one byte. |
| Utf8Decode.DecodeStrayContinuation | src/physfs_unicode.c:52-60 | A byte 0x80..0xBF is the sentinel and advances one byte. |
| Utf8Decode.DecodeContinuations | src/physfs_unicode.c:62-186 | For leads at or above 0xC0, the cursor advances exactly one byte, with the sentinel, if and only if one of the announced continuation bytes is not of the form 10xxxxxx. Otherwise it advances past all of them, plus one more for the six-byte form. |
| Utf8Decode.DecodeLegacyForms | src/physfs_unicode.c:138-186 | Leads 0xF8..0xFF always give the sentinel. A complete five-byte form advances 5 bytes; a complete six-byte form advances 7. |
| Utf8Decode.DecodeOverlongNul | src/physfs_unicode.c:62-74 | The overlong encoding C0 80 is one sentinel, two bytes long. |
| Utf8Decode.DecodeTruncatedTail | src/physfs_unicode.c:76-86 | A three-byte lead cut short by the terminator gives the sentinel and stops before the NUL. |
| Utf8Decode.DecodeSixByteOvershoot | src/physfs_unicode.c:161-185 | FC 80 80 80 80 80 00 leaves the cursor at offset 7, past the terminator. |
| Utf8Encode.Sanitize | src/physfs_unicode.c:271-289 | The value the encoder writes is always encodable. It equals the input exactly when the input is encodable, and is '?' otherwise. |
| Utf8Encode.Encode | src/physfs_unicode.c:291-335 | The encoding has the length that fits the value's range (1 to 4 bytes). It holds no NUL byte for a non-zero value, and every byte after the first has the form 10xxxxxx. |
| Utf8Encode.Emitted | src/physfs_unicode.c:266-335 | What the encoder writes for a value and a remaining length: either the whole encoding of the sanitized value, or nothing. It writes nothing exactly when that encoding does not fit. |
| Utf8Encode.EncodeInto | src/physfs_unicode.c:263-339 | Writes all or nothing. The written prefix grows by the emitted bytes, and the position moves by their count. The remaining length drops by that count, or becomes 0 when nothing fits. No other cell of the buffer changes. |
| Utf8Encode.DecodeEncoded | src/physfs_unicode.c:36-130 | Decoding the encoding of a non-zero encodable value, followed by anything, gives the value and advances by the encoded length. |
| Utf8Encode.EncodeDecoded | src/physfs_unicode.c:62-130 | Every valid decode reads bytes that are exactly the encoding of the value it returns: a decoded value re-encodes to the same bytes. |
| Utf8Encode.SanitizedRoundTrip | src/physfs_unicode.c:263-339 | Any non-zero input, sanitized and then encoded, decodes back to the sanitized value. |
| Utf8Encode.CodepointsShift | src/physfs_unicode.c:36-189 | Decoding does not depend on what comes before the cursor. |
| Utf8Encode.CodepointsOfEncoded | src/physfs_unicode.c:36-130 | Decoding an encoded value followed by a string gives that value, then the string's values. |
| Utf8Encode.CodepointsOfEncodeAll | src/physfs_unicode.c:36-130 | Decoding the concatenated encodings of non-zero encodable values gives back exactly those values. |
| Utf8Encode.SevenSurrogatesRefused | src/physfs_unicode.c:97-100 | ED A0 80 (U+D800) decodes to the sentinel and U+D800 is encoded as '?'. ED A0 81 (U+D801) decodes to U+D801, and U+D801 is encoded back to ED A0 81. |
| Utf8ToFixed.Ucs4Unit | src/physfs_unicode.c:200-201 | The unit is never the sentinel. A decoded value (the sentinel or an encodable value) comes out as a value the encoder accepts. |
| Utf8ToFixed.Ucs2Unit | src/physfs_unicode.c:218-222 | The UCS-2 unit is the UCS-4 unit wherever that fits in 16 bits, and '?' above 0xFFFF. A decoded value comes out as a value the encoder accepts. |
| Utf8ToFixed.HighSurrogate | src/physfs_unicode.c:248-250 | The first unit of a pair is a high surrogate, in D800..DBFF. |
| Utf8ToFixed.LowSurrogate | src/physfs_unicode.c:248-253 | The second unit of a pair is a low surrogate, in DC00..DFFF. |
| Utf8ToFixed.Utf16Group | src/physfs_unicode.c:240-256 | One unit, the UCS-4 unit, up to 0xFFFF. Above that, a high then a low surrogate that RFC 2781 decodes back to the value; for a value above 0x10FFFF, back to 0x10000 plus the low 20 bits of the value less 0x10000. |
| Utf8ToFixed.Ucs4Units | src/physfs_unicode.c:192-204 | The units written before the terminator: at most the room there is, none of them 0, all encodable. |
| Utf8ToFixed.Ucs2Units | src/physfs_unicode.c:210-229 | The units written before the terminator: at most the room there is, none of them 0, all encodable. |
| Utf8ToFixed.Utf16Units | src/physfs_unicode.c:232-261 | The units written before the terminator: at most the room there is, none of them 0. |
| Utf8ToFixed.Ucs4Pass | src/physfs_unicode.c:197-203 | One pass decodes one value and writes its one unit. It keeps the written prefix equal to the start of `Ucs4Units`. |
| Utf8ToFixed.Utf8ToUcs4 | src/physfs_unicode.c:192-207 | Writes `Ucs4Units` followed by a 0 terminator, within len/4 units. Nothing after the terminator changes. |
| Utf8ToFixed.Ucs2Pass | src/physfs_unicode.c:215-225 | One pass decodes one value and writes its one unit. It keeps the written prefix equal to the start of `Ucs2Units`. |
| Utf8ToFixed.Utf8ToUcs2 | src/physfs_unicode.c:210-229 | Writes `Ucs2Units` followed by a 0 terminator, within len/2 units. Nothing after the terminator changes. |
| Utf8ToFixed.Utf16Pass | src/physfs_unicode.c:235-257 | One pass of the loop either stops, when the source ends or a pair does not fit, or consumes one decoded value and writes one or two units. It keeps the written prefix equal to the start of `Utf16Units`. |
| Utf8ToFixed.Utf8ToUtf16 | src/physfs_unicode.c:232-261 | Writes `Utf16Units` followed by a 0 terminator, within len/2 units. Nothing after the terminator changes. |
| Utf8ToFixed.Ucs4UnitsAreCodepoints | src/physfs_unicode.c:192-207 | The UCS-4 output is the decoded values with the sentinel as '?', cut to the room there is. |
| Utf8ToFixed.Ucs2UnitsAreCodepoints | src/physfs_unicode.c:210-229 | The UCS-2 output is the decoded values, with the sentinel and values above 0xFFFF as '?', cut to the room there is. |
| Utf8ToFixed.Utf16UnitsAreCodepoints | src/physfs_unicode.c:232-261 | The UTF-16 output is a prefix of the decoded values' unit groups, and all of them when they fit. |
| Utf8ToFixed.Utf16FitCount | src/physfs_unicode.c:243-257 | The number of values whose groups fit in turn is at most the number of values. |
| Utf8ToFixed.Utf16Fitting | src/physfs_unicode.c:243-257 | The groups that fit in turn take at most the room there is. |
| Utf8ToFixed.Utf16UnitsWhole | src/physfs_unicode.c:232-261 | The UTF-16 output is exactly the whole groups of the first `Utf16FitCount` decoded values, so a pair is never split. The next group, if any, does not fit in the room left. |
| Utf8ToFixed.Utf16UnitsFitting | src/physfs_unicode.c:232-261 | The UTF-16 output is the groups of the decoded values, each written while it fits. |
| Utf8ToFixed.Utf16FittingWhole | src/physfs_unicode.c:243-257 | The groups that fit are the groups of the first `Utf16FitCount` values, and the next group does not fit. |
| Utf8ToFixed.Utf16StepPair | src/physfs_unicode.c:241-255 | A value above 0xFFFF is written as high surrogate then low surrogate, and uses two units of room. |
| Utf8ToFixed.Utf16Stop | src/physfs_unicode.c:235-246 | Output ends at the terminator, when the room is gone, or when a pair meets a single unit of room. |
| Utf8ToFixed.SurrogatePairInverts | src/physfs_unicode.c:248-253 | The surrogates written for c above 0xFFFF recombine, with the 0x10000 offset of RFC 2781, to c when c is at most 0x10FFFF. Above that they give 0x10000 plus the low 20 bits of c - 0x10000. |
| Utf8FromFixed.UnitsFrom | src/physfs_unicode.c:344-348 | The source units before the first 0 unit, none of them 0. |
| Utf8FromFixed.EncodeFitting | src/physfs_unicode.c:341-350 | The encoder run over a list of values with a room: at most the room in bytes. |
| Utf8FromFixed.SanitizeAll | src/physfs_unicode.c:271-289 | Every value of the result is one the encoder accepts. |
| Utf8FromFixed.SanitizeAllFixes | src/physfs_unicode.c:271-289 | Sanitizing changes nothing exactly when every value is encodable, so sanitizing twice is sanitizing once. |
| Utf8FromFixed.FitCount | src/physfs_unicode.c:341-350 | The number of values whose encodings fit in turn is at most the number of values. |
| Utf8FromFixed.FromUnitsOutput | src/physfs_unicode.c:341-350 | The bytes the UTF8FROMTYPE loop writes before the terminator, within the room there is. |
| Utf8FromFixed.FromUnitsPass | src/physfs_unicode.c:346-348 | One pass reads one unit and encodes it. It keeps the written prefix equal to the start of `FromUnitsOutput`, and strictly reduces the room. |
| Utf8FromFixed.Utf8FromUnits | src/physfs_unicode.c:341-350 | With len 0 the buffer is unchanged. Otherwise it writes `FromUnitsOutput` followed by a NUL, in fewer than len bytes in all, and nothing after the NUL changes. |
| Utf8FromFixed.Utf8FromUcs4 | src/physfs_unicode.c:352-355 | The same, for 32-bit units. |
| Utf8FromFixed.Utf8FromUcs2 | src/physfs_unicode.c:357-360 | The same, for 16-bit units widened to 32 bits. |
| Utf8FromFixed.Utf8FromLatin1 | src/physfs_unicode.c:363-366 | The same, for Latin-1 bytes taken as the codepoints 0..255. |
| Utf8FromFixed.Utf16Scalar | src/physfs_unicode.c:379-396 | Two units are consumed exactly when a high surrogate is followed by a low one, and the pair gives a value below 0x100000 (no offset). Any other surrogate becomes '?' and consumes one unit. Any other unit is its own value. |
| Utf8FromFixed.Utf16Scalars | src/physfs_unicode.c:377-399 | The values the UTF-16 loop takes from the units before the terminator, each below 0x100000. |
| Utf8FromFixed.FromUtf16Output | src/physfs_unicode.c:371-399 | The bytes `PHYSFS_utf8FromUtf16` writes before the terminator, within the room there is. |
| Utf8FromFixed.FromUtf16Pass | src/physfs_unicode.c:379-398 | One pass reads the one or two units `Utf16Scalar` consumes and encodes one value. It keeps the written prefix equal to the start of `FromUtf16Output`, and strictly reduces the room. |
| Utf8FromFixed.Utf8FromUtf16 | src/physfs_unicode.c:371-402 | With len 0 the buffer is unchanged. Otherwise it writes `FromUtf16Output` followed by a NUL, in fewer than len bytes in all, and nothing after the NUL changes. |
| Utf8FromFixed.FromUnitsIsEncodeFitting | src/physfs_unicode.c:341-350 | The output is the encodings of the units before the first 0, each written whole while it fits. |
| Utf8FromFixed.FromUtf16IsEncodeFitting | src/physfs_unicode.c:371-402 | The output is the encodings of the combined UTF-16 values, each written whole while it fits. |
| Utf8FromFixed.EncodeFittingIsWhole | src/physfs_unicode.c:263-350 | That output is the concatenated encodings of a prefix of the sanitized values: no encoding is ever cut. |
| Utf8FromFixed.EncodeFittingStops | src/physfs_unicode.c:263-350 | Output stops only at a value whose encoding does not fit the remaining room, and every value is written when all fit. |
| Utf8FromFixed.FromUnitsRoundTrip | src/physfs_unicode.c:341-350 | Decoding the output gives back the sanitized source values that fit. |
| Utf8FromFixed.FromUcs4RoundTrip | src/physfs_unicode.c:352-355 | With enough room, decoding the output gives back every sanitized source value. |
| Utf8FromFixed.FromLatin1RoundTrip | src/physfs_unicode.c:363-366 | With enough room, decoding the output gives back the Latin-1 bytes themselves. |
| Utf8FromFixed.FromUtf16RoundTrip | src/physfs_unicode.c:371-402 | When no pair combines to 0, decoding the output gives back the sanitized combined values that fit. |
| Utf8FromFixed.Utf16PairMissesOffset | src/physfs_unicode.c:394 | D83D DE00 comes out as EF 98 80 (U+F600), not as U+1F600. |
| Utf8FromFixed.Utf16PairEmbeddedNul | src/physfs_unicode.c:394 | D800 DC00 'A' comes out as NUL then 'A', so the result reads as the empty string. |
| RoundTrips.Ucs4ThroughUtf8 | src/physfs_unicode.c:192-207 | UCS-4 to UTF-8 and back to UCS-4, with enough room, gives the sanitized source units. |
| RoundTrips.Utf16PairComesBackShifted | src/physfs_unicode.c:248-253 | A pair written by UTF-8 to UTF-16 for c is read back by UTF-16 to UTF-8 as c - 0x10000: the two converters are not inverse. |
| CaseFold.Hash | src/physfs_unicode.c:425 | The bucket index of a codepoint is in 0..255. |
| CaseFold.HashOfByte | src/physfs_unicode.c:425 | A codepoint below 0x100 is its own bucket index. |
| CaseFold.FindMapping | src/physfs_unicode.c:429-443 | The folded form from an entry onward is the codepoint itself, or the triple of a later entry for that codepoint. |
| CaseFold.FoldOf | src/physfs_unicode.c:421-444 | The folded form is the codepoint itself, or the triple of an entry for it in its bucket. |
| CaseFold.LocateCaseFoldMapping | src/physfs_unicode.c:421-444 | The scan returns the folded form `FoldOf` gives for the codepoint. |
| CaseFold.FoldOfLookup | src/physfs_unicode.c:429-443 | The folded form is the triple of the first entry for the codepoint in its bucket, or (c, 0, 0) when the bucket has none. |
| CaseFold.FoldOfWellFormed | src/physfs_unicode.c:421-444 | In a well-formed table, 0 folds to (0, 0, 0) and every other codepoint to a triple starting with a non-zero value. |
| CaseFold.CodepointCmp | src/physfs_unicode.c:447-471 | The result is 0 for equal codepoints, otherwise the lexicographic order of the two folded triples. |
| CaseFold.CodepointOrder | src/physfs_unicode.c:447-471 | The result is -1, 0 or 1. It is 0 exactly when the codepoints are equal or their folded forms are. |
| CaseFold.CodepointOrderAntisymmetric | src/physfs_unicode.c:447-471 | Swapping the codepoints negates the result. |
| CaseFold.TerminatorSortsFirst | src/physfs_unicode.c:447-471 | In a well-formed table, 0 sorts before every other codepoint. |
| CaseFold.SampleTableOrder | src/physfs_unicode.c:421-471 | With the sample table, 'A' matches 'a', U+00DF folds to (s, s, 0), and U+00DF sorts after 's'. |
| Lexicographic.LexCompare | src/physfs_unicode.c:454-470 | The reference order: -1, 0 or 1, and 0 exactly for equal sequences. |
| Utf8Compare.StricmpFrom | src/physfs_unicode.c:474-488 | The result of `__PHYSFS_utf8stricmp` from two cursors, which is -1, 0 or 1. |
| Utf8Compare.StrnicmpFrom | src/physfs_unicode.c:491-506 | The result of `__PHYSFS_utf8strnicmp` from two cursors, which is -1, 0 or 1, and 0 when n is 0. |
| Utf8Compare.Utf8Stricmp | src/physfs_unicode.c:474-488 | The loop returns `StricmpFrom` of the two strings. |
| Utf8Compare.StrnicmpPass | src/physfs_unicode.c:497-503 | One pass either decides the result, which is then `StrnicmpFrom` from the current cursors, or moves both cursors past a matching pair and uses up one of n. |
| Utf8Compare.Utf8Strnicmp | src/physfs_unicode.c:491-506 | The loop returns `StrnicmpFrom` of the two strings and n. |
| Utf8Compare.StricmpIsListCmp | src/physfs_unicode.c:474-488 | Comparing two strings is comparing their decoded codepoint lists, an exhausted list reading as 0. |
| Utf8Compare.StricmpReflexive | src/physfs_unicode.c:474-488 | A string matches itself. |
| Utf8Compare.StricmpAntisymmetric | src/physfs_unicode.c:474-488 | With a well-formed table, swapping the strings negates the result. |
| Utf8Compare.ListCmpIsFoldedOrder | src/physfs_unicode.c:447-488 | With a well-formed table, two codepoint lists compare as the lexicographic order of their folded triples laid end to end. |
| Utf8Compare.StricmpIsFoldedOrder | src/physfs_unicode.c:474-488 | With a well-formed table, two strings compare as their folded triples do, and match exactly when those are equal. |
| Utf8Compare.StricmpCountsDiffer | src/physfs_unicode.c:474-488 | With a well-formed table, strings with different numbers of codepoints never match. |
| Utf8Compare.StricmpNoExpansion | src/physfs_unicode.c:447-488 | With a well-formed table, one codepoint never matches a two-codepoint string, not even the two values its fold expands to. |
| Utf8Compare.SampleSharpS | src/physfs_unicode.c:474-488 | With the sample table, "ß" compares greater than "ss". |
| Utf8Compare.StrnicmpIsPrefixCmp | src/physfs_unicode.c:491-506 | The bounded comparison compares the first n codepoints of each string. |
| Utf8Compare.StrnicmpAgrees | src/physfs_unicode.c:491-506 | A non-zero bounded result equals the unbounded result. |
| AsciiCompare.AsciiFold | src/physfs_unicode.c:515-516 | No upper-case letter survives folding, and only 0 folds to 0. |
| AsciiCompare.AsciiFoldMatches | src/physfs_unicode.c:515-518 | Folding is idempotent. Two bytes fold alike exactly when they are the same byte or the same letter in the two cases. |
| AsciiCompare.StricmpAsciiFrom | src/physfs_unicode.c:509-526 | The result of `__PHYSFS_stricmpASCII` from an offset, which is -1, 0 or 1. |
| AsciiCompare.StrnicmpAsciiFrom | src/physfs_unicode.c:529-546 | The result of `__PHYSFS_strnicmpASCII` from an offset, which is -1, 0 or 1, and 0 when n is 0. |
| AsciiCompare.StricmpAscii | src/physfs_unicode.c:509-526 | The loop returns `StricmpAsciiFrom` of the two strings. |
| AsciiCompare.StrnicmpAscii | src/physfs_unicode.c:529-546 | The loop returns `StrnicmpAsciiFrom` of the two strings and n. |
| AsciiCompare.StricmpAsciiIsFoldedOrder | src/physfs_unicode.c:509-526 | The result is the lexicographic order of the folded strings, and it is 0 exactly when they are equal. |
| AsciiCompare.StricmpAsciiReflexive | src/physfs_unicode.c:509-526 | A string matches itself. |
| AsciiCompare.StricmpAsciiAntisymmetric | src/physfs_unicode.c:509-526 | Swapping the strings negates the result. |
| AsciiCompare.StrnicmpAsciiIsPrefixOrder | src/physfs_unicode.c:529-546 | The bounded comparison is the lexicographic order of the first n folded bytes of each string. |
| AsciiCompare.StrnicmpAsciiAgrees | src/physfs_unicode.c:529-546 | A non-zero bounded result equals the unbounded result. |
| AsciiCompare.StricmpAsciiExamples | src/physfs_unicode.c:509-526 | "ABC" matches "abc". '[' sorts before "A", because it is compared with 'a'. |

## Left out

- The contents of the case-fold table (`physfs_casefolding.h`) are not part of this model. The table is a parameter. Properties that depend on its shape assume `WellFormedTable`. A two-entry sample table serves for examples.
- Utf8ToFixed.Utf8ToUcs4, Utf8ToFixed.Utf8ToUcs2, Utf8ToFixed.Utf8ToUtf16: these require `len` to be at least one unit. With a smaller `len`, the C subtraction at lines 194, 212 and 234 wraps around and overruns the buffer, which is not modelled.
- Utf8ToFixed.Utf8ToUcs4, Utf8ToFixed.Utf8ToUcs2, Utf8ToFixed.Utf8ToUtf16, Utf8FromFixed.Utf8FromUnits, Utf8FromFixed.Utf8FromUtf16: `len` is an unbounded `nat`. 64-bit wrap-around cannot arise for a buffer that exists, so it is not modelled.
- Pointer arithmetic and `**` out-parameters are replaced by index cursors. Memory outside the modelled sequences and arrays is not modelled. Reads past a string's end give 0 rather than undefined behaviour.
- AsciiCompare.StricmpAscii, AsciiCompare.StrnicmpAscii: bytes are compared as unsigned. Under a signed `char`, bytes 0x80..0xFF would sort before ASCII bytes instead; that platform-dependent case is not modelled.
- Utf8Compare.StricmpAntisymmetric: it holds only for a well-formed table. With a table that folds a non-zero codepoint to (0, 0, 0), the loop can stop on one side and not on the other.
- No UTF-16 to UTF-8 to UTF-16 round trip is stated, because the pair decoding at line 394 omits the 0x10000 offset. `Utf16PairComesBackShifted` states the shift instead.
- No lemma states that a multi-value fold matches its spelled-out string, because comparison is per codepoint. `StricmpNoExpansion` states the opposite.
- No lemma states that the decoder rejects the whole surrogate range, because only seven values are rejected.
