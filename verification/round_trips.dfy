/**
 * Round trips that go through two converters: one to UTF-8 and one back.
 */
module RoundTrips {
  import opened Scalars
  import opened Utf8Decode
  import opened Utf8Encode
  import opened Utf8ToFixed
  import opened Utf8FromFixed

  /**
   * UCS-4 to UTF-8 and back to UCS-4, with room for everything both ways,
   * gives the string back, with every value the encoder refuses as '?'.
   */
  lemma Ucs4ThroughUtf8(src: seq<u32>, cap: nat, units: nat)
    requires |EncodeAll(SanitizeAll(UnitsFrom(src, 0)))| <= cap
    requires |UnitsFrom(src, 0)| <= units
    ensures Ucs4Units(FromUnitsOutput(src, 0, cap), 0, units) == SanitizeAll(UnitsFrom(src, 0))
  {
    var out := FromUnitsOutput(src, 0, cap);
    var cs := SanitizeAll(UnitsFrom(src, 0));
    FromUcs4RoundTrip(src, cap);
    Ucs4UnitsAreCodepoints(out, 0, units);
    assert Ucs4Of(cs) == cs;
  }

  /**
   * UTF-16 written by the UTF-8 to UTF-16 converter does not come back: the
   * pair written for a value above 0xFFFF is read back by the UTF-16 to UTF-8
   * converter as that value less 0x10000.
   */
  lemma Utf16PairComesBackShifted(c: u32)
    requires 0x10000 <= c <= MAX_CODEPOINT
    ensures Utf16Scalar([HighSurrogate(c), LowSurrogate(c)], 0) == Decoded(c - 0x10000, 2)
  {
    SurrogatePairInverts(c);
  }
}
