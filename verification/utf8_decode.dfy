/**
 * The UTF-8 decoder `utf8codepoint`: reads one codepoint at a cursor and
 * moves the cursor. The C function updates `*_str` in place and returns the
 * value; here it is a function of the buffer and the cursor that returns both.
 *
 * It follows the table of section 3 of RFC 3629, except that it rejects only
 * seven surrogate values, still walks the obsolete 5- and 6-byte forms, and
 * moves the cursor 7 bytes (not 6) past a complete 6-byte form.
 */
module Utf8Decode {
  import opened Scalars

  /** A decoded value and the cursor after it. */
  datatype Decoded = Decoded(cp: u32, next: nat)

  /** The byte has the form 10xxxxxx (the source tests `(b & 0xC0) == 0x80`). */
  predicate IsContinuation(b: int) {
    0x80 <= b < 0xC0
  }

  /** The `count` bytes from offset `from` on all have the form 10xxxxxx. */
  predicate ContinuationRun(s: seq<byte>, from: nat, count: nat) {
    forall k :: from <= k < from + count ==> IsContinuation(ByteAt(s, k))
  }

  /** How many continuation bytes a lead byte at or above 0xC0 announces. */
  function ExpectedContinuations(lead: byte): nat {
    if lead < 0xE0 then 1
    else if lead < 0xF0 then 2
    else if lead < 0xF8 then 3
    else if lead < 0xFC then 4
    else 5
  }

  /**
   * Decodes the codepoint at offset `i`. Shifts and masks of the source are
   * written as the equivalent products and differences on bytes whose top
   * bits are known.
   */
  function Decode(s: seq<byte>, i: nat): (r: Decoded)
    // 0 comes back exactly at a terminator, and then the cursor stays put
    ensures r.cp == 0 <==> ByteAt(s, i) == 0
    ensures r.cp == 0 ==> r.next == i
    // any other byte moves the cursor forward, by at most 7
    ensures r.cp != 0 ==> i < r.next <= i + 7
    // a value other than the sentinel is one the encoder writes unchanged,
    // and the cursor moved by exactly the length of its encoding
    ensures r.cp != BOGUS_VALUE ==> IsEncodable(r.cp)
    ensures r.cp != 0 && r.cp != BOGUS_VALUE ==> r.next == i + EncodedLength(r.cp)
    // no NUL is consumed, except by the 6-byte form that moves 7 bytes
    ensures r.next < i + 7 ==> forall k :: i <= k < r.next ==> ByteAt(s, k) != 0
    ensures r.next == i + 7 ==>
      0xFC <= ByteAt(s, i) && forall k :: i <= k < i + 6 ==> ByteAt(s, k) != 0
  {
    var lead := ByteAt(s, i);
    if lead == 0 then
      Decoded(0, i)
    else if lead < 0x80 then
      Decoded(lead, i + 1)
    else if lead < 0xC0 then
      // a continuation byte where a lead byte should be
      Decoded(BOGUS_VALUE, i + 1)
    else if lead < 0xE0 then
      var b2 := ByteAt(s, i + 1);
      if !IsContinuation(b2) then Decoded(BOGUS_VALUE, i + 1)
      else
        var v := (lead - 0xC0) * 0x40 + (b2 - 0x80);
        Decoded(if 0x80 <= v <= 0x7FF then v else BOGUS_VALUE, i + 2)
    else if lead < 0xF0 then
      var b2, b3 := ByteAt(s, i + 1), ByteAt(s, i + 2);
      if !IsContinuation(b2) || !IsContinuation(b3) then Decoded(BOGUS_VALUE, i + 1)
      else
        var v := (lead - 0xE0) * 0x1000 + (b2 - 0x80) * 0x40 + (b3 - 0x80);
        Decoded(if !IsRejectedSurrogate(v) && 0x800 <= v <= 0xFFFD then v else BOGUS_VALUE, i + 3)
    else if lead < 0xF8 then
      var b2, b3, b4 := ByteAt(s, i + 1), ByteAt(s, i + 2), ByteAt(s, i + 3);
      if !IsContinuation(b2) || !IsContinuation(b3) || !IsContinuation(b4) then
        Decoded(BOGUS_VALUE, i + 1)
      else
        var v := (lead - 0xF0) * 0x40000 + (b2 - 0x80) * 0x1000 + (b3 - 0x80) * 0x40 + (b4 - 0x80);
        Decoded(if 0x10000 <= v <= 0x10FFFF then v else BOGUS_VALUE, i + 4)
    else if lead < 0xFC then
      // obsolete 5-byte form: always rejected, but walked
      Decoded(BOGUS_VALUE, if ContinuationRun(s, i + 1, 4) then i + 5 else i + 1)
    else
      // obsolete 6-byte form: five continuations are checked, seven bytes skipped
      Decoded(BOGUS_VALUE, if ContinuationRun(s, i + 1, 5) then i + 7 else i + 1)
  }

  /**
   * The values decoded from offset `i` up to (not including) the terminator:
   * what a loop calling `utf8codepoint` until it returns 0 sees.
   */
  function Codepoints(s: seq<byte>, i: nat): (cps: seq<u32>)
    ensures forall k :: 0 <= k < |cps| ==>
      cps[k] != 0 && (cps[k] == BOGUS_VALUE || IsEncodable(cps[k]))
    decreases if i < |s| then |s| - i else 0
  {
    var d := Decode(s, i);
    if d.cp == 0 then [] else [d.cp] + Codepoints(s, d.next)
  }

  /** A byte 1..127 decodes to itself and moves the cursor by one. */
  lemma DecodeAscii(s: seq<byte>, i: nat)
    requires 0 < ByteAt(s, i) < 0x80
    ensures Decode(s, i) == Decoded(ByteAt(s, i), i + 1)
  {
  }

  /** A stray continuation byte 0x80..0xBF is rejected on its own. */
  lemma DecodeStrayContinuation(s: seq<byte>, i: nat)
    requires 0x80 <= ByteAt(s, i) < 0xC0
    ensures Decode(s, i) == Decoded(BOGUS_VALUE, i + 1)
  {
  }

  /**
   * A lead byte at or above 0xC0 moves the cursor by exactly one, and yields
   * the sentinel, precisely when one of the continuation bytes it announces is
   * missing; otherwise the cursor moves past all of them (one further for the
   * 6-byte form).
   */
  lemma DecodeContinuations(s: seq<byte>, i: nat)
    requires 0xC0 <= ByteAt(s, i)
    ensures var n := ExpectedContinuations(ByteAt(s, i));
      var r := Decode(s, i);
      && (r.next == i + 1 <==> !ContinuationRun(s, i + 1, n))
      && (r.next == i + 1 ==> r.cp == BOGUS_VALUE)
      && (ContinuationRun(s, i + 1, n) ==>
            r.next == i + 1 + n + (if 0xFC <= ByteAt(s, i) then 1 else 0))
  {
    var n := ExpectedContinuations(ByteAt(s, i));
    if !ContinuationRun(s, i + 1, n) {
      var k :| i + 1 <= k < i + 1 + n && !IsContinuation(ByteAt(s, k));
      assert k - (i + 1) < n;
    }
  }

  /** The obsolete 5- and 6-byte forms never yield a value. */
  lemma DecodeLegacyForms(s: seq<byte>, i: nat)
    requires 0xF8 <= ByteAt(s, i)
    ensures Decode(s, i).cp == BOGUS_VALUE
    ensures ByteAt(s, i) < 0xFC && ContinuationRun(s, i + 1, 4) ==> Decode(s, i).next == i + 5
    ensures 0xFC <= ByteAt(s, i) && ContinuationRun(s, i + 1, 5) ==> Decode(s, i).next == i + 7
  {
  }

  /** The overlong 2-byte encoding of NUL is one sentinel, two bytes long. */
  lemma DecodeOverlongNul()
    ensures Decode([0xC0, 0x80, 0], 0) == Decoded(BOGUS_VALUE, 2)
  {
  }

  /** A lead byte cut short by the terminator yields the sentinel and stops before the NUL. */
  lemma DecodeTruncatedTail()
    ensures Decode([0x41, 0xE2, 0], 1) == Decoded(BOGUS_VALUE, 2)
  {
  }

  /**
   * The 6-byte form steps over the terminator at offset 6: the cursor ends at
   * offset 7, past the end of the string.
   */
  lemma DecodeSixByteOvershoot()
    ensures Decode([0xFC, 0x80, 0x80, 0x80, 0x80, 0x80, 0], 0) == Decoded(BOGUS_VALUE, 7)
  {
    assert ContinuationRun([0xFC, 0x80, 0x80, 0x80, 0x80, 0x80, 0], 1, 5);
  }
}
