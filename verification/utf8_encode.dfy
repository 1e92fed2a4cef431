/**
 * The UTF-8 encoder `utf8fromcodepoint`, which writes one codepoint into a
 * buffer whose remaining capacity it tracks, and the round trip between it
 * and the decoder.
 */
module Utf8Encode {
  import opened Scalars
  import opened Utf8Decode

  /**
   * The value the encoder actually writes for `cp`: values above 0x10FFFF,
   * the two non-characters 0xFFFE/0xFFFF and the seven rejected surrogates
   * become '?'.
   */
  function Sanitize(cp: u32): (r: u32)
    ensures IsEncodable(r)
    ensures IsEncodable(cp) <==> r == cp
    ensures r != cp ==> r == REPLACEMENT
  {
    if cp > MAX_CODEPOINT then REPLACEMENT
    else if cp == 0xFFFE || cp == 0xFFFF then REPLACEMENT
    else if IsRejectedSurrogate(cp) then REPLACEMENT
    else cp
  }

  /**
   * The bytes the encoder writes for a value at most 0x10FFFF. `c >> 6` is
   * `c / 0x40`, `c & 0x3F` is `c % 0x40`, and OR-ing in the marker bits adds
   * them because the shifted value is below them.
   */
  function Encode(c: u32): (e: seq<byte>)
    requires c <= MAX_CODEPOINT
    ensures |e| == EncodedLength(c)
    ensures c != 0 ==> forall k :: 0 <= k < |e| ==> e[k] != 0
    ensures forall k :: 1 <= k < |e| ==> IsContinuation(e[k])
  {
    if c < 0x80 then
      [c]
    else if c < 0x800 then
      [c / 0x40 + 0xC0, c % 0x40 + 0x80]
    else if c < 0x10000 then
      [c / 0x1000 + 0xE0, c / 0x40 % 0x40 + 0x80, c % 0x40 + 0x80]
    else
      [c / 0x40000 + 0xF0, c / 0x1000 % 0x40 + 0x80, c / 0x40 % 0x40 + 0x80, c % 0x40 + 0x80]
  }

  /** The concatenated encodings of a sequence of encodable values. */
  function EncodeAll(cs: seq<u32>): (e: seq<byte>)
    requires forall k :: 0 <= k < |cs| ==> IsEncodable(cs[k])
  {
    if cs == [] then [] else assert IsEncodable(cs[0]); Encode(cs[0]) + EncodeAll(cs[1..])
  }

  /**
   * The bytes the encoder writes for `cp` when `len` bytes remain: the whole
   * encoding of the sanitized value, or nothing at all when it does not fit.
   */
  function Emitted(cp: u32, len: nat): (w: seq<byte>)
    ensures w == [] || w == Encode(Sanitize(cp))
    ensures w == [] <==> len < EncodedLength(Sanitize(cp))
  {
    var e := Encode(Sanitize(cp));
    if |e| <= len then e else []
  }

  /**
   * Writes the encoding of `cp` at `dst[pos..]`, where `len` bytes remain.
   * Either the whole sequence fits and is written, the cursor moving past it
   * and `len` shrinking by its length; or nothing is written and `len`
   * becomes 0 (also when `len` was already 0). Cells from the new cursor on
   * keep their values.
   */
  method EncodeInto(cp: u32, dst: array<byte>, pos: nat, len: nat) returns (pos': nat, len': nat)
    requires pos + len <= dst.Length
    modifies dst
    ensures var w := Emitted(cp, len);
      && pos' == pos + |w| && len' == (if w == [] then 0 else len - |w|)
      && dst[..pos'] == old(dst[..pos]) + w
    ensures forall k | pos' <= k < dst.Length :: dst[k] == old(dst[k])
  {
    pos', len' := pos, len;
    if len == 0 {
      return;
    }

    var c := cp;
    if c > MAX_CODEPOINT {
      c := REPLACEMENT;
    } else if c == 0xFFFE || c == 0xFFFF {
      c := REPLACEMENT;
    } else if IsRejectedSurrogate(c) {
      c := REPLACEMENT;
    }
    assert c == Sanitize(cp);

    ghost var before: seq<byte> := dst[..pos];
    assert Emitted(cp, len) == if EncodedLength(c) <= len then Encode(c) else [];
    if c < 0x80 {
      Put(dst, pos', c, before);
      pos', len' := pos' + 1, len' - 1;
    } else if c < 0x800 {
      if len' < 2 {
        len' := 0;
      } else {
        var b1, b2: byte := c / 0x40 + 0xC0, c % 0x40 + 0x80;
        assert Encode(c) == [b1, b2];
        PutBytes(dst, pos', [b1, b2], before);
        pos', len' := pos' + 2, len' - 2;
      }
    } else if c < 0x10000 {
      if len' < 3 {
        len' := 0;
      } else {
        var b1, b2, b3: byte := c / 0x1000 + 0xE0, c / 0x40 % 0x40 + 0x80, c % 0x40 + 0x80;
        assert Encode(c) == [b1, b2, b3];
        PutBytes(dst, pos', [b1, b2, b3], before);
        pos', len' := pos' + 3, len' - 3;
      }
    } else {
      if len' < 4 {
        len' := 0;
      } else {
        var b1, b2, b3, b4: byte :=
          c / 0x40000 + 0xF0, c / 0x1000 % 0x40 + 0x80, c / 0x40 % 0x40 + 0x80, c % 0x40 + 0x80;
        assert Encode(c) == [b1, b2, b3, b4];
        PutBytes(dst, pos', [b1, b2, b3, b4], before);
        pos', len' := pos' + 4, len' - 4;
      }
    }
  }

  /** Writes the two to four bytes of a sequence one after another from `dst[pos]`. */
  method PutBytes(dst: array<byte>, pos: nat, e: seq<byte>, ghost before: seq<byte>)
    requires 2 <= |e| <= 4 && pos + |e| <= dst.Length && dst[..pos] == before
    modifies dst
    ensures dst[..pos + |e|] == before + e
    ensures forall k | pos + |e| <= k < dst.Length :: dst[k] == old(dst[k])
  {
    Put(dst, pos, e[0], before);
    Put(dst, pos + 1, e[1], before + e[..1]);
    assert before + e[..1] + [e[1]] == before + e[..2];
    if |e| > 2 {
      Put(dst, pos + 2, e[2], before + e[..2]);
      assert before + e[..2] + [e[2]] == before + e[..3];
      if |e| > 3 {
        Put(dst, pos + 3, e[3], before + e[..3]);
        assert before + e[..3] + [e[3]] == before + e[..4];
      }
    }
    assert e[..|e|] == e;
  }

  /**
   * Round trip, encode then decode (section 3 of RFC 3629): a non-zero value
   * the encoder writes unchanged decodes back to itself, and the cursor moves
   * by exactly the encoded length, whatever follows.
   */
  lemma {:induction false} DecodeEncoded(c: u32, rest: seq<byte>)
    requires IsEncodable(c) && c != 0
    ensures Decode(Encode(c) + rest, 0) == Decoded(c, EncodedLength(c))
  {
    if c < 0x80 {
    } else if c < 0x800 {
      DecodeEncodedTwo(c, rest);
    } else if c < 0x10000 {
      DecodeEncodedThree(c, rest);
    } else {
      DecodeEncodedFour(c, rest);
    }
  }

  lemma DecodeEncodedTwo(c: u32, rest: seq<byte>)
    requires IsEncodable(c) && 0x80 <= c < 0x800
    ensures Decode(Encode(c) + rest, 0) == Decoded(c, 2)
  {
    var s := Encode(c) + rest;
    assert ByteAt(s, 0) == c / 0x40 + 0xC0 && ByteAt(s, 1) == c % 0x40 + 0x80;
  }

  lemma DecodeEncodedThree(c: u32, rest: seq<byte>)
    requires IsEncodable(c) && 0x800 <= c < 0x10000
    ensures Decode(Encode(c) + rest, 0) == Decoded(c, 3)
  {
    var s := Encode(c) + rest;
    assert ByteAt(s, 0) == c / 0x1000 + 0xE0;
    assert ByteAt(s, 1) == c / 0x40 % 0x40 + 0x80;
    assert ByteAt(s, 2) == c % 0x40 + 0x80;
    assert c / 0x40 == c / 0x1000 * 0x40 + c / 0x40 % 0x40;
  }

  lemma DecodeEncodedFour(c: u32, rest: seq<byte>)
    requires IsEncodable(c) && 0x10000 <= c
    ensures Decode(Encode(c) + rest, 0) == Decoded(c, 4)
  {
    var s := Encode(c) + rest;
    assert ByteAt(s, 0) == c / 0x40000 + 0xF0;
    assert ByteAt(s, 1) == c / 0x1000 % 0x40 + 0x80;
    assert ByteAt(s, 2) == c / 0x40 % 0x40 + 0x80;
    assert ByteAt(s, 3) == c % 0x40 + 0x80;
    assert c / 0x1000 == c / 0x40000 * 0x40 + c / 0x1000 % 0x40;
    assert c / 0x40 == c / 0x1000 * 0x40 + c / 0x40 % 0x40;
  }

  /** A 2-byte form the decoder accepts is the encoding of its value. */
  lemma EncodeTwoBytes(lead: int, b2: int)
    requires 0xC0 <= lead < 0xE0 && IsContinuation(b2)
    requires 0x80 <= (lead - 0xC0) * 0x40 + (b2 - 0x80) <= 0x7FF
    ensures Encode((lead - 0xC0) * 0x40 + (b2 - 0x80)) == [lead, b2]
  {
  }

  /** A 3-byte form the decoder accepts is the encoding of its value. */
  lemma EncodeThreeBytes(lead: int, b2: int, b3: int)
    requires 0xE0 <= lead < 0xF0 && IsContinuation(b2) && IsContinuation(b3)
    requires 0x800 <= (lead - 0xE0) * 0x1000 + (b2 - 0x80) * 0x40 + (b3 - 0x80)
    ensures Encode((lead - 0xE0) * 0x1000 + (b2 - 0x80) * 0x40 + (b3 - 0x80)) == [lead, b2, b3]
  {
    var x1, x2, x3 := lead - 0xE0, b2 - 0x80, b3 - 0x80;
    var v := x1 * 0x1000 + x2 * 0x40 + x3;
    var q := x1 * 0x40 + x2;
    assert v == q * 0x40 + x3 && v / 0x40 == q && v % 0x40 == x3;
    assert q / 0x40 == x1 && q % 0x40 == x2;
    assert v == x1 * 0x1000 + (x2 * 0x40 + x3) && v / 0x1000 == x1;
  }

  /** A 4-byte form the decoder accepts is the encoding of its value. */
  lemma EncodeFourBytes(lead: int, b2: int, b3: int, b4: int)
    requires 0xF0 <= lead < 0xF8 && IsContinuation(b2) && IsContinuation(b3) && IsContinuation(b4)
    requires 0x10000 <= (lead - 0xF0) * 0x40000 + (b2 - 0x80) * 0x1000 + (b3 - 0x80) * 0x40 + (b4 - 0x80) <= 0x10FFFF
    ensures Encode((lead - 0xF0) * 0x40000 + (b2 - 0x80) * 0x1000 + (b3 - 0x80) * 0x40 + (b4 - 0x80))
            == [lead, b2, b3, b4]
  {
    var x1, x2, x3, x4 := lead - 0xF0, b2 - 0x80, b3 - 0x80, b4 - 0x80;
    var v := x1 * 0x40000 + x2 * 0x1000 + x3 * 0x40 + x4;
    var q1 := x1 * 0x1000 + x2 * 0x40 + x3;
    var q2 := x1 * 0x40 + x2;
    assert v == q1 * 0x40 + x4 && v / 0x40 == q1 && v % 0x40 == x4;
    assert q1 == q2 * 0x40 + x3 && q1 % 0x40 == x3;
    assert v == q2 * 0x1000 + (x3 * 0x40 + x4) && v / 0x1000 == q2;
    assert q2 % 0x40 == x2;
    assert v == x1 * 0x40000 + (x2 * 0x1000 + x3 * 0x40 + x4) && v / 0x40000 == x1;
  }

  /**
   * Round trip, decode then encode: whenever the decoder yields a value, the
   * bytes it consumed are exactly that value's encoding, so it accepts no
   * overlong or otherwise non-canonical form.
   */
  lemma {:induction false} EncodeDecoded(s: seq<byte>, i: nat)
    requires Decode(s, i).cp != 0 && Decode(s, i).cp != BOGUS_VALUE
    ensures Decode(s, i).next <= |s|
    ensures s[i..Decode(s, i).next] == Encode(Decode(s, i).cp)
  {
    var r := Decode(s, i);
    assert ByteAt(s, r.next - 1) != 0;
    var lead: int := ByteAt(s, i);
    if lead < 0x80 {
    } else if lead < 0xE0 {
      EncodeDecodedTwo(s, i, r);
    } else if lead < 0xF0 {
      EncodeDecodedThree(s, i, r);
    } else {
      EncodeDecodedFour(s, i, r);
    }
  }

  // `EncodeDecoded` for the lead bytes of the 2-, 3- and 4-byte forms.

  lemma EncodeDecodedTwo(s: seq<byte>, i: nat, r: Decoded)
    requires r == Decode(s, i) && r.cp != 0 && r.cp != BOGUS_VALUE && 0x80 <= ByteAt(s, i) < 0xE0
    requires r.next <= |s|
    ensures s[i..r.next] == Encode(r.cp)
  {
    EncodeTwoBytes(ByteAt(s, i), ByteAt(s, i + 1));
    assert s[i..r.next] == [ByteAt(s, i), ByteAt(s, i + 1)];
  }

  lemma EncodeDecodedThree(s: seq<byte>, i: nat, r: Decoded)
    requires r == Decode(s, i) && r.cp != 0 && r.cp != BOGUS_VALUE && 0xE0 <= ByteAt(s, i) < 0xF0
    requires r.next <= |s|
    ensures s[i..r.next] == Encode(r.cp)
  {
    EncodeThreeBytes(ByteAt(s, i), ByteAt(s, i + 1), ByteAt(s, i + 2));
    assert s[i..r.next] == [ByteAt(s, i), ByteAt(s, i + 1), ByteAt(s, i + 2)];
  }

  lemma EncodeDecodedFour(s: seq<byte>, i: nat, r: Decoded)
    requires r == Decode(s, i) && r.cp != 0 && r.cp != BOGUS_VALUE && 0xF0 <= ByteAt(s, i)
    requires r.next <= |s|
    ensures s[i..r.next] == Encode(r.cp)
  {
    EncodeFourBytes(ByteAt(s, i), ByteAt(s, i + 1), ByteAt(s, i + 2), ByteAt(s, i + 3));
    assert s[i..r.next] == [ByteAt(s, i), ByteAt(s, i + 1), ByteAt(s, i + 2), ByteAt(s, i + 3)];
  }

  /** Whether bytes are continuation bytes does not depend on what precedes them. */
  lemma ContinuationRunShift(p: seq<byte>, s: seq<byte>, from: nat, count: nat)
    ensures ContinuationRun(p + s, |p| + from, count) <==> ContinuationRun(s, from, count)
  {
    forall k: nat ensures ByteAt(p + s, |p| + k) == ByteAt(s, k) {
    }
    if ContinuationRun(s, from, count) {
      forall k | |p| + from <= k < |p| + from + count
        ensures IsContinuation(ByteAt(p + s, k))
      {
        assert ByteAt(p + s, |p| + (k - |p|)) == ByteAt(s, k - |p|);
      }
    }
  }

  /** Decoding does not depend on what precedes the cursor. */
  lemma {:induction false} DecodeShift(p: seq<byte>, s: seq<byte>, i: nat)
    ensures Decode(p + s, |p| + i) == Decoded(Decode(s, i).cp, |p| + Decode(s, i).next)
  {
    var q := p + s;
    assert ByteAt(q, |p| + i) == ByteAt(s, i) && ByteAt(q, |p| + i + 1) == ByteAt(s, i + 1);
    assert ByteAt(q, |p| + i + 2) == ByteAt(s, i + 2) && ByteAt(q, |p| + i + 3) == ByteAt(s, i + 3);
    assert ByteAt(q, |p| + i + 4) == ByteAt(s, i + 4) && ByteAt(q, |p| + i + 5) == ByteAt(s, i + 5);
    ContinuationRunShift(p, s, i + 1, 4);
    ContinuationRunShift(p, s, i + 1, 5);
  }

  /** Decoding a whole string does not depend on what precedes the cursor. */
  lemma {:induction false} CodepointsShift(p: seq<byte>, s: seq<byte>, i: nat)
    ensures Codepoints(p + s, |p| + i) == Codepoints(s, i)
    decreases if i < |s| then |s| - i else 0
  {
    var d := Decode(s, i);
    DecodeShift(p, s, i);
    if d.cp != 0 {
      assert Codepoints(p + s, |p| + i) == [d.cp] + Codepoints(p + s, |p| + d.next);
      CodepointsShift(p, s, d.next);
    }
  }

  /** Decoding an encoded value followed by anything yields it, then the rest. */
  lemma {:induction false} CodepointsOfEncoded(c: u32, rest: seq<byte>)
    requires IsEncodable(c) && c != 0
    ensures Codepoints(Encode(c) + rest, 0) == [c] + Codepoints(rest, 0)
  {
    var e := Encode(c);
    DecodeEncoded(c, rest);
    CodepointsShift(e, rest, 0);
  }

  /**
   * Decoding the concatenated encodings of non-zero encodable values yields
   * exactly those values.
   */
  lemma {:induction false} CodepointsOfEncodeAll(cs: seq<u32>)
    requires forall k :: 0 <= k < |cs| ==> IsEncodable(cs[k]) && cs[k] != 0
    ensures Codepoints(EncodeAll(cs), 0) == cs
  {
    if cs != [] {
      CodepointsOfEncoded(cs[0], EncodeAll(cs[1..]));
      CodepointsOfEncodeAll(cs[1..]);
    }
  }

  /** What the encoder writes for any value decodes back to the sanitized value. */
  lemma SanitizedRoundTrip(cp: u32, rest: seq<byte>)
    requires cp != 0
    ensures Decode(Encode(Sanitize(cp)) + rest, 0) == Decoded(Sanitize(cp), EncodedLength(Sanitize(cp)))
  {
    DecodeEncoded(Sanitize(cp), rest);
  }

  /**
   * Of the surrogates only seven are refused: U+D800 is the sentinel when
   * decoded and '?' when encoded, while U+D801 is decoded and encoded like
   * any other value.
   */
  lemma SevenSurrogatesRefused()
    ensures Decode([0xED, 0xA0, 0x80, 0], 0).cp == BOGUS_VALUE
    ensures Sanitize(0xD800) == REPLACEMENT
    ensures Decode([0xED, 0xA0, 0x81, 0], 0) == Decoded(0xD801, 3)
    ensures Encode(Sanitize(0xD801)) == [0xED, 0xA0, 0x81]
  {
    assert ContinuationRun([0xED, 0xA0, 0x80, 0], 1, 2);
    assert ContinuationRun([0xED, 0xA0, 0x81, 0], 1, 2);
  }
}
