/**
 * The converters to UTF-8: `PHYSFS_utf8FromUcs4`, `PHYSFS_utf8FromUcs2` and
 * `PHYSFS_utf8FromLatin1` (three expansions of the `UTF8FROMTYPE` macro) and
 * `PHYSFS_utf8FromUtf16`. Each reads a zero-terminated array of units and
 * feeds values to the encoder while it has room, in a caller buffer of `len`
 * bytes that keeps one byte for the terminator.
 *
 * Each converter is a method over the destination array, proved against a
 * function of the source and the remaining room (`cap`, `len - 1` at the
 * start) giving the bytes written before the terminator. Those functions
 * are in turn tied to `EncodeFitting`, the encoder run over a list of values.
 */
module Utf8FromFixed {
  import opened Scalars
  import opened Utf8Decode
  import opened Utf8Encode

  /** The values of a unit array from index `j` up to (not including) its first 0. */
  function UnitsFrom(src: seq<u32>, j: nat): (us: seq<u32>)
    ensures forall k :: 0 <= k < |us| ==> us[k] != 0
    decreases if j < |src| then |src| - j else 0
  {
    var u := Unit32At(src, j);
    if u == 0 then [] else [u] + UnitsFrom(src, j + 1)
  }

  /**
   * The encoder applied to the values in turn with `cap` bytes of room, as
   * long as each encoding fits; the first that does not ends the output.
   */
  function EncodeFitting(cs: seq<u32>, cap: nat): (out: seq<byte>)
    ensures |out| <= cap
  {
    if cs == [] then []
    else
      var w := Emitted(cs[0], cap);
      if w == [] then [] else w + EncodeFitting(cs[1..], cap - |w|)
  }

  /** The values with everything the encoder refuses replaced by '?'. */
  function SanitizeAll(cs: seq<u32>): (r: seq<u32>)
    ensures |r| == |cs|
    ensures forall k :: 0 <= k < |cs| ==> r[k] == Sanitize(cs[k])
    ensures forall k :: 0 <= k < |r| ==> IsEncodable(r[k])
  {
    seq(|cs|, k requires 0 <= k < |cs| => Sanitize(cs[k]))
  }

  /**
   * Sanitizing changes nothing exactly when every value is encodable, so a
   * second pass is a no-op.
   */
  lemma SanitizeAllFixes(cs: seq<u32>)
    ensures SanitizeAll(cs) == cs <==> forall k :: 0 <= k < |cs| ==> IsEncodable(cs[k])
    ensures SanitizeAll(SanitizeAll(cs)) == SanitizeAll(cs)
  {
    if SanitizeAll(cs) == cs {
      assert forall k :: 0 <= k < |cs| ==> IsEncodable(SanitizeAll(cs)[k]);
    }
  }

  /** How many of the values `EncodeFitting` encodes with `cap` bytes of room. */
  function FitCount(cs: seq<u32>, cap: nat): (k: nat)
    ensures k <= |cs|
  {
    if cs == [] then 0
    else
      var n := EncodedLength(Sanitize(cs[0]));
      if n > cap then 0 else 1 + FitCount(cs[1..], cap - n)
  }

  // ---------------------------------------------------------------------
  // UCS-4, UCS-2 and Latin-1 (the UTF8FROMTYPE loop)
  // ---------------------------------------------------------------------

  /** The bytes the UTF8FROMTYPE loop writes before its terminator, reading at `j` with `cap` bytes of room. */
  function FromUnitsOutput(src: seq<u32>, j: nat, cap: nat): (out: seq<byte>)
    ensures |out| <= cap
    decreases cap
  {
    if cap == 0 then []
    else
      var cp := Unit32At(src, j);
      if cp == 0 then []
      else
        var w := Emitted(cp, cap);
        if w == [] then [] else w + FromUnitsOutput(src, j + 1, cap - |w|)
  }

  lemma FromUnitsStep(src: seq<u32>, j: nat, cap: nat, out: seq<byte>, total: seq<byte>)
    requires cap > 0 && Unit32At(src, j) != 0
    requires out + FromUnitsOutput(src, j, cap) == total
    ensures var w := Emitted(Unit32At(src, j), cap);
      (out + w) + FromUnitsOutput(src, j + 1, if w == [] then 0 else cap - |w|) == total
  {
    var w := Emitted(Unit32At(src, j), cap);
    if w != [] {
      assert FromUnitsOutput(src, j, cap) == w + FromUnitsOutput(src, j + 1, cap - |w|);
      ConcatAssociative(out, w, FromUnitsOutput(src, j + 1, cap - |w|));
    }
  }

  /** One pass of the UTF8FROMTYPE loop past its terminator test: encodes one unit. */
  method FromUnitsPass(src: seq<u32>, dst: array<byte>, j: nat, pos: nat, room: nat,
                       ghost out: seq<byte>, ghost total: seq<byte>)
      returns (j': nat, pos': nat, room': nat, ghost out': seq<byte>)
    requires room > 0 && Unit32At(src, j) != 0 && pos + room <= dst.Length
    requires dst[..pos] == out && out + FromUnitsOutput(src, j, room) == total
    modifies dst
    ensures pos <= pos' && pos' + room' <= pos + room && room' < room && j' == j + 1
    ensures dst[..pos'] == out' && out' + FromUnitsOutput(src, j', room') == total
    ensures forall k | pos' <= k < dst.Length :: dst[k] == old(dst[k])
  {
    var cp := Unit32At(src, j);
    FromUnitsStep(src, j, room, out, total);
    ghost var w := Emitted(cp, room);
    pos', room' := EncodeInto(cp, dst, pos, room);
    out' := out + w;
    j' := j + 1;
  }

  /**
   * The UTF8FROMTYPE loop on units already widened to 32 bits. With `len == 0`
   * nothing is written; otherwise the bytes of `FromUnitsOutput` and a
   * terminator, within the `len` bytes, and nothing after that terminator
   * changes.
   */
  method Utf8FromUnits(src: seq<u32>, dst: array<byte>, len: nat)
    requires len <= dst.Length
    modifies dst
    ensures len == 0 ==> dst[..] == old(dst[..])
    ensures len > 0 ==> (var out := FromUnitsOutput(src, 0, len - 1);
      && |out| < len && dst[..|out|] == out && dst[|out|] == 0
      && forall k | |out| < k < dst.Length :: dst[k] == old(dst[k]))
  {
    if len == 0 {
      return;
    }
    var room: nat := len - 1;  // save room for the terminator
    var j: nat, pos: nat := 0, 0;
    ghost var out: seq<byte>, total := [], FromUnitsOutput(src, 0, room);
    while room != 0
      invariant pos + room <= len - 1
      invariant dst[..pos] == out && out + FromUnitsOutput(src, j, room) == total
      invariant forall k | pos <= k < dst.Length :: dst[k] == old(dst[k])
      decreases room
    {
      if Unit32At(src, j) == 0 {
        break;
      }
      j, pos, room, out := FromUnitsPass(src, dst, j, pos, room, out, total);
    }
    assert FromUnitsOutput(src, j, room) == [];
    assert FromUnitsOutput(src, 0, len - 1) == out && |out| == pos;
    Put(dst, pos, 0, out);
  }

  /** `PHYSFS_utf8FromUcs4`: each 32-bit unit is a value for the encoder. */
  method Utf8FromUcs4(src: seq<u32>, dst: array<byte>, len: nat)
    requires len <= dst.Length
    modifies dst
    ensures len == 0 ==> dst[..] == old(dst[..])
    ensures len > 0 ==> (var out := FromUnitsOutput(src, 0, len - 1);
      && |out| < len && dst[..|out|] == out && dst[|out|] == 0
      && forall k | |out| < k < dst.Length :: dst[k] == old(dst[k]))
  {
    Utf8FromUnits(src, dst, len);
  }

  /** `PHYSFS_utf8FromUcs2`: each 16-bit unit, zero-extended, is a value for the encoder. */
  method Utf8FromUcs2(src: seq<u16>, dst: array<byte>, len: nat)
    requires len <= dst.Length
    modifies dst
    ensures len == 0 ==> dst[..] == old(dst[..])
    ensures len > 0 ==> (var out := FromUnitsOutput(src, 0, len - 1);
      && |out| < len && dst[..|out|] == out && dst[|out|] == 0
      && forall k | |out| < k < dst.Length :: dst[k] == old(dst[k]))
  {
    Utf8FromUnits(src, dst, len);
  }

  /** `PHYSFS_utf8FromLatin1`: each byte, read as unsigned, is the codepoint of the same number. */
  method Utf8FromLatin1(src: seq<byte>, dst: array<byte>, len: nat)
    requires len <= dst.Length
    modifies dst
    ensures len == 0 ==> dst[..] == old(dst[..])
    ensures len > 0 ==> (var out := FromUnitsOutput(src, 0, len - 1);
      && |out| < len && dst[..|out|] == out && dst[|out|] == 0
      && forall k | |out| < k < dst.Length :: dst[k] == old(dst[k]))
  {
    Utf8FromUnits(src, dst, len);
  }

  // ---------------------------------------------------------------------
  // UTF-16
  // ---------------------------------------------------------------------

  /**
   * The value the loop of `PHYSFS_utf8FromUtf16` takes from a non-zero unit
   * at `j`, and where it reads next. A lone low surrogate, or a high one not
   * followed by a low one, becomes '?' (`UNICODE_BOGUS_CHAR_CODEPOINT`), and
   * only that one unit is consumed. A pair combines as `((hi - 0xD800) << 10) | (lo - 0xDC00)`,
   * without the 0x10000 that section 2.2 of RFC 2781 adds.
   */
  function Utf16Scalar(src: seq<u16>, j: nat): (r: Decoded)
    ensures r.next == j + 1 || r.next == j + 2
    // a pair is consumed exactly when a high surrogate is followed by a low one
    ensures r.next == j + 2 <==>
      0xD800 <= Unit16At(src, j) <= 0xDBFF && 0xDC00 <= Unit16At(src, j + 1) <= 0xDFFF
    ensures r.next == j + 2 ==> r.cp < 0x10_0000
    // any other surrogate becomes '?'; any other unit is its own value
    ensures r.next == j + 1 && 0xD800 <= Unit16At(src, j) <= 0xDFFF ==> r.cp == REPLACEMENT
    ensures !(0xD800 <= Unit16At(src, j) <= 0xDFFF) ==> r.cp == Unit16At(src, j)
  {
    var cp := Unit16At(src, j);
    if 0xDC00 <= cp <= 0xDFFF then Decoded(REPLACEMENT, j + 1)
    else if 0xD800 <= cp <= 0xDBFF then
      var pair := Unit16At(src, j + 1);
      if pair < 0xDC00 || pair > 0xDFFF then Decoded(REPLACEMENT, j + 1)
      else Decoded((cp - 0xD800) * 0x400 + (pair - 0xDC00), j + 2)
    else Decoded(cp, j + 1)
  }

  /** The values the UTF-16 loop takes from index `j` up to the terminating 0 unit. */
  function Utf16Scalars(src: seq<u16>, j: nat): (cps: seq<u32>)
    ensures forall k | 0 <= k < |cps| :: cps[k] < 0x10_0000
    decreases if j < |src| then |src| - j else 0
  {
    if Unit16At(src, j) == 0 then []
    else
      var r := Utf16Scalar(src, j);
      [r.cp] + Utf16Scalars(src, r.next)
  }

  /** The bytes `PHYSFS_utf8FromUtf16` writes before its terminator, reading at `j` with `cap` bytes of room. */
  function FromUtf16Output(src: seq<u16>, j: nat, cap: nat): (out: seq<byte>)
    ensures |out| <= cap
    decreases cap
  {
    if cap == 0 then []
    else if Unit16At(src, j) == 0 then []
    else
      var r := Utf16Scalar(src, j);
      var w := Emitted(r.cp, cap);
      if w == [] then [] else w + FromUtf16Output(src, r.next, cap - |w|)
  }

  lemma FromUtf16Step(src: seq<u16>, j: nat, cap: nat, cp: u32, next: nat, out: seq<byte>, total: seq<byte>)
    requires cap > 0 && Unit16At(src, j) != 0 && Utf16Scalar(src, j) == Decoded(cp, next)
    requires out + FromUtf16Output(src, j, cap) == total
    ensures var w := Emitted(cp, cap);
      (out + w) + FromUtf16Output(src, next, if w == [] then 0 else cap - |w|) == total
  {
    var w := Emitted(cp, cap);
    if w != [] {
      assert FromUtf16Output(src, j, cap) == w + FromUtf16Output(src, next, cap - |w|);
      ConcatAssociative(out, w, FromUtf16Output(src, next, cap - |w|));
    }
  }

  /**
   * One pass of the loop of `PHYSFS_utf8FromUtf16` past its terminator
   * test: combines a surrogate pair or flags an orphan, then encodes.
   */
  method FromUtf16Pass(src: seq<u16>, dst: array<byte>, j: nat, pos: nat, room: nat,
                       ghost out: seq<byte>, ghost total: seq<byte>)
      returns (j': nat, pos': nat, room': nat, ghost out': seq<byte>)
    requires room > 0 && Unit16At(src, j) != 0 && pos + room <= dst.Length
    requires dst[..pos] == out && out + FromUtf16Output(src, j, room) == total
    modifies dst
    ensures pos <= pos' && pos' + room' <= pos + room && room' < room
    ensures j' == Utf16Scalar(src, j).next
    ensures dst[..pos'] == out' && out' + FromUtf16Output(src, j', room') == total
    ensures forall k | pos' <= k < dst.Length :: dst[k] == old(dst[k])
  {
    var cp: u32 := Unit16At(src, j);
    j' := j + 1;
    if 0xDC00 <= cp <= 0xDFFF {
      cp := REPLACEMENT;  // orphaned low surrogate
    } else if 0xD800 <= cp <= 0xDBFF {
      var pair := Unit16At(src, j');
      if pair < 0xDC00 || pair > 0xDFFF {
        cp := REPLACEMENT;  // high surrogate without its low half
      } else {
        j' := j' + 1;
        cp := (cp - 0xD800) * 0x400 + (pair - 0xDC00);
      }
    }
    FromUtf16Step(src, j, room, cp, j', out, total);
    ghost var w := Emitted(cp, room);
    pos', room' := EncodeInto(cp, dst, pos, room);
    out' := out + w;
  }

  /**
   * `PHYSFS_utf8FromUtf16`: with `len == 0` nothing is written; otherwise
   * the bytes of `FromUtf16Output` and a terminator, within the `len` bytes,
   * and nothing after that terminator changes.
   */
  method Utf8FromUtf16(src: seq<u16>, dst: array<byte>, len: nat)
    requires len <= dst.Length
    modifies dst
    ensures len == 0 ==> dst[..] == old(dst[..])
    ensures len > 0 ==> (var out := FromUtf16Output(src, 0, len - 1);
      && |out| < len && dst[..|out|] == out && dst[|out|] == 0
      && forall k | |out| < k < dst.Length :: dst[k] == old(dst[k]))
  {
    if len == 0 {
      return;
    }
    var room: nat := len - 1;  // save room for the terminator
    var j: nat, pos: nat := 0, 0;
    ghost var out: seq<byte>, total := [], FromUtf16Output(src, 0, room);
    while room != 0
      invariant pos + room <= len - 1
      invariant dst[..pos] == out && out + FromUtf16Output(src, j, room) == total
      invariant forall k | pos <= k < dst.Length :: dst[k] == old(dst[k])
      decreases room
    {
      if Unit16At(src, j) == 0 {
        break;
      }
      j, pos, room, out := FromUtf16Pass(src, dst, j, pos, room, out, total);
    }
    assert FromUtf16Output(src, j, room) == [];
    assert FromUtf16Output(src, 0, len - 1) == out && |out| == pos;
    Put(dst, pos, 0, out);
  }

  // ---------------------------------------------------------------------
  // What the output is
  // ---------------------------------------------------------------------

  /** The UTF8FROMTYPE loop is the encoder run over the units before the terminator. */
  lemma {:induction false} FromUnitsIsEncodeFitting(src: seq<u32>, j: nat, cap: nat)
    ensures FromUnitsOutput(src, j, cap) == EncodeFitting(UnitsFrom(src, j), cap)
    decreases cap
  {
    var us := UnitsFrom(src, j);
    if cap > 0 && Unit32At(src, j) != 0 {
      assert us[0] == Unit32At(src, j) && us[1..] == UnitsFrom(src, j + 1);
      var w := Emitted(us[0], cap);
      if w != [] {
        FromUnitsIsEncodeFitting(src, j + 1, cap - |w|);
      }
    }
  }

  /** The UTF-16 loop is the encoder run over the values it takes from the units. */
  lemma {:induction false} FromUtf16IsEncodeFitting(src: seq<u16>, j: nat, cap: nat)
    ensures FromUtf16Output(src, j, cap) == EncodeFitting(Utf16Scalars(src, j), cap)
    decreases cap
  {
    var cs := Utf16Scalars(src, j);
    if cap > 0 && Unit16At(src, j) != 0 {
      var r := Utf16Scalar(src, j);
      assert cs[0] == r.cp && cs[1..] == Utf16Scalars(src, r.next);
      var w := Emitted(r.cp, cap);
      if w != [] {
        FromUtf16IsEncodeFitting(src, r.next, cap - |w|);
      }
    }
  }

  /**
   * The output is a concatenation of whole encodings: those of the first
   * `FitCount` values, sanitized. No value is ever split.
   */
  lemma {:induction false} EncodeFittingIsWhole(cs: seq<u32>, cap: nat)
    ensures EncodeFitting(cs, cap) == EncodeAll(SanitizeAll(cs[..FitCount(cs, cap)]))
  {
    if cs != [] {
      var w := Emitted(cs[0], cap);
      if w != [] {
        var k := FitCount(cs, cap);
        EncodeFittingIsWhole(cs[1..], cap - |w|);
        assert cs[..k][1..] == cs[1..][..k - 1];
        assert SanitizeAll(cs[..k])[1..] == SanitizeAll(cs[1..][..k - 1]);
      }
    }
  }

  /**
   * The output stops early only for a value whose encoding no longer fits;
   * when the whole encoding fits in `cap`, every value is written.
   */
  lemma {:induction false} EncodeFittingStops(cs: seq<u32>, cap: nat)
    ensures var k := FitCount(cs, cap);
      k < |cs| ==> |EncodeFitting(cs, cap)| + EncodedLength(Sanitize(cs[k])) > cap
    ensures |EncodeAll(SanitizeAll(cs))| <= cap ==> FitCount(cs, cap) == |cs|
  {
    if cs != [] {
      var n := EncodedLength(Sanitize(cs[0]));
      assert SanitizeAll(cs)[1..] == SanitizeAll(cs[1..]);
      if n <= cap {
        EncodeFittingStops(cs[1..], cap - n);
      }
    }
  }

  /**
   * Round trip, UCS-4 (or UCS-2, or Latin-1) to UTF-8 and back: decoding what
   * the converter writes yields the sanitized units, as many as fitted.
   */
  lemma FromUnitsRoundTrip(src: seq<u32>, cap: nat)
    ensures var us := UnitsFrom(src, 0);
      Codepoints(FromUnitsOutput(src, 0, cap), 0) == SanitizeAll(us)[..FitCount(us, cap)]
  {
    var us := UnitsFrom(src, 0);
    var k := FitCount(us, cap);
    FromUnitsIsEncodeFitting(src, 0, cap);
    EncodeFittingIsWhole(us, cap);
    assert SanitizeAll(us[..k]) == SanitizeAll(us)[..k];
    CodepointsOfEncodeAll(SanitizeAll(us[..k]));
  }

  /**
   * With room for all of it, the UTF-8 a UCS-4 string becomes decodes back to
   * the string itself, except that values the encoder refuses read as '?'.
   */
  lemma FromUcs4RoundTrip(src: seq<u32>, cap: nat)
    requires |EncodeAll(SanitizeAll(UnitsFrom(src, 0)))| <= cap
    ensures Codepoints(FromUnitsOutput(src, 0, cap), 0) == SanitizeAll(UnitsFrom(src, 0))
  {
    FromUnitsRoundTrip(src, cap);
    EncodeFittingStops(UnitsFrom(src, 0), cap);
  }

  /** Every Latin-1 byte b becomes the codepoint b: decoding the output gives the bytes back. */
  lemma FromLatin1RoundTrip(src: seq<byte>, cap: nat)
    requires |EncodeAll(SanitizeAll(UnitsFrom(src, 0)))| <= cap
    ensures Codepoints(FromUnitsOutput(src, 0, cap), 0) == UnitsFrom(src, 0)
  {
    FromUcs4RoundTrip(src, cap);
    var us := UnitsFrom(src, 0);
    forall k | 0 <= k < |us| ensures us[k] < 0x100 {
      LatinUnitsFrom(src, 0, k);
    }
  }

  /** Every unit read from a byte string is below 0x100. */
  lemma {:induction false} LatinUnitsFrom(src: seq<byte>, j: nat, k: nat)
    requires k < |UnitsFrom(src, j)|
    ensures UnitsFrom(src, j)[k] < 0x100
    decreases k
  {
    if k > 0 {
      LatinUnitsFrom(src, j + 1, k - 1);
    }
  }

  /**
   * Round trip, UTF-16 to UTF-8 and back to values: decoding the output yields
   * the values the loop took from the units, sanitized, as long as none is 0.
   */
  lemma FromUtf16RoundTrip(src: seq<u16>, cap: nat)
    requires forall k :: 0 <= k < |Utf16Scalars(src, 0)| ==> Utf16Scalars(src, 0)[k] != 0
    ensures var cs := Utf16Scalars(src, 0);
      Codepoints(FromUtf16Output(src, 0, cap), 0) == SanitizeAll(cs)[..FitCount(cs, cap)]
  {
    var cs := Utf16Scalars(src, 0);
    var k := FitCount(cs, cap);
    FromUtf16IsEncodeFitting(src, 0, cap);
    EncodeFittingIsWhole(cs, cap);
    assert SanitizeAll(cs[..k]) == SanitizeAll(cs)[..k];
    CodepointsOfEncodeAll(SanitizeAll(cs[..k]));
  }

  /**
   * The pair D83D DE00 (U+1F600 by section 2.2 of RFC 2781) is taken as
   * 0xF600, so its UTF-8 is that of U+F600.
   */
  lemma Utf16PairMissesOffset()
    ensures FromUtf16Output([0xD83D, 0xDE00, 0], 0, 8) == [0xEF, 0x98, 0x80]
  {
    assert Utf16Scalar([0xD83D, 0xDE00, 0], 0) == Decoded(0xF600, 2);
    assert Emitted(0xF600, 8) == [0xEF, 0x98, 0x80];
  }

  /** The pair D800 DC00 is taken as 0 and written as an embedded NUL byte. */
  lemma Utf16PairEmbeddedNul()
    ensures FromUtf16Output([0xD800, 0xDC00, 0x41, 0], 0, 8) == [0, 0x41]
    ensures Codepoints([0, 0x41], 0) == []
  {
    assert Utf16Scalar([0xD800, 0xDC00, 0x41, 0], 0) == Decoded(0, 2);
    assert Emitted(0, 8) == [0];
    assert Emitted(0x41, 7) == [0x41];
  }
}
