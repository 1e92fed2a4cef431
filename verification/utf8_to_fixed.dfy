/**
 * `PHYSFS_utf8ToUcs4`, `PHYSFS_utf8ToUcs2` and `PHYSFS_utf8ToUtf16`: decode a
 * UTF-8 string codepoint by codepoint into a caller buffer of `len` BYTES,
 * reserving room for a terminator that is always written.
 *
 * Each converter is a method over the destination array, proved against a
 * function giving the units it writes before the terminator; `cap` in those
 * functions is the number of units left for content, `len / unit size - 1`.
 */
module Utf8ToFixed {
  import opened Scalars
  import opened Utf8Decode

  /** The UCS-4 unit for a decoded value: the sentinel becomes '?'. */
  function Ucs4Unit(cp: u32): (u: u32)
    ensures cp == BOGUS_VALUE ==> u == REPLACEMENT
    ensures cp != BOGUS_VALUE ==> u == cp
    // the sentinel never reaches the output, and a decoded value comes out
    // as a value the encoder accepts
    ensures u != BOGUS_VALUE
    ensures cp == BOGUS_VALUE || IsEncodable(cp) ==> IsEncodable(u)
  {
    if cp == BOGUS_VALUE then REPLACEMENT else cp
  }

  /** The UCS-2 unit for a decoded value: the sentinel and values above 0xFFFF become '?'. */
  function Ucs2Unit(cp: u32): (u: u16)
    ensures cp <= 0xFFFF ==> u == cp
    ensures cp > 0xFFFF ==> u == REPLACEMENT
    // the UCS-2 unit is the UCS-4 unit wherever that fits in 16 bits
    ensures Ucs4Unit(cp) <= 0xFFFF ==> u == Ucs4Unit(cp)
    ensures cp == BOGUS_VALUE || IsEncodable(cp) ==> IsEncodable(u)
  {
    var c := Ucs4Unit(cp);
    if c > 0xFFFF then REPLACEMENT else c
  }

  /**
   * The high surrogate for a value above 0xFFFF: 0xD800 plus bits 10..19 of
   * the value less 0x10000 (section 2.1 of RFC 2781).
   */
  function HighSurrogate(c: u32): (h: u16)
    requires c > 0xFFFF
    ensures 0xD800 <= h <= 0xDBFF
  {
    0xD800 + (c - 0x10000) / 0x400 % 0x400
  }

  /** The low surrogate: 0xDC00 plus the low ten bits of the value less 0x10000. */
  function LowSurrogate(c: u32): (l: u16)
    requires c > 0xFFFF
    ensures 0xDC00 <= l <= 0xDFFF
  {
    0xDC00 + (c - 0x10000) % 0x400
  }

  /**
   * The UTF-16 units for a decoded value (after the sentinel became '?'):
   * one unit up to 0xFFFF, otherwise its surrogate pair.
   */
  function Utf16Group(cp: u32): (g: seq<u16>)
    ensures 1 <= |g| <= 2
    ensures |g| == 2 <==> Ucs4Unit(cp) > 0xFFFF
    ensures |g| == 1 ==> g[0] == Ucs4Unit(cp)
    // a pair is a high then a low surrogate, and section 2.2 of RFC 2781
    // decodes it back to the value (its low 20 bits above 0x10FFFF)
    ensures |g| == 2 ==> 0xD800 <= g[0] <= 0xDBFF && 0xDC00 <= g[1] <= 0xDFFF
    ensures |g| == 2 ==>
      0x10000 + (g[0] as int - 0xD800) * 0x400 + (g[1] as int - 0xDC00) ==
      0x10000 + (Ucs4Unit(cp) - 0x10000) % 0x10_0000
    ensures |g| == 2 && cp <= MAX_CODEPOINT ==>
      0x10000 + (g[0] as int - 0xD800) * 0x400 + (g[1] as int - 0xDC00) == cp
  {
    var c := Ucs4Unit(cp);
    if c > 0xFFFF then
      SurrogatePairInverts(c);
      [HighSurrogate(c), LowSurrogate(c)]
    else [c]
  }

  /** The values of a list with the sentinel replaced by '?'. */
  function Ucs4Of(cps: seq<u32>): (us: seq<u32>)
    ensures |us| == |cps|
    ensures forall k :: 0 <= k < |cps| ==> us[k] == Ucs4Unit(cps[k])
  {
    seq(|cps|, k requires 0 <= k < |cps| => Ucs4Unit(cps[k]))
  }

  /** The UCS-2 units of a list of decoded values. */
  function Ucs2Of(cps: seq<u32>): (us: seq<u16>)
    ensures |us| == |cps|
    ensures forall k :: 0 <= k < |cps| ==> us[k] == Ucs2Unit(cps[k])
  {
    seq(|cps|, k requires 0 <= k < |cps| => Ucs2Unit(cps[k]))
  }

  /** The UTF-16 units of a list of decoded values, group after group. */
  function Utf16Of(cps: seq<u32>): seq<u16> {
    if cps == [] then [] else Utf16Group(cps[0]) + Utf16Of(cps[1..])
  }

  /** The units `PHYSFS_utf8ToUcs4` writes before its terminator. */
  function Ucs4Units(s: seq<byte>, i: nat, cap: nat): (out: seq<u32>)
    ensures |out| <= cap
    ensures forall k :: 0 <= k < |out| ==> out[k] != 0 && IsEncodable(out[k])
    decreases cap
  {
    if cap == 0 then []
    else
      var d := Decode(s, i);
      if d.cp == 0 then [] else [Ucs4Unit(d.cp)] + Ucs4Units(s, d.next, cap - 1)
  }

  /** The units `PHYSFS_utf8ToUcs2` writes before its terminator. */
  function Ucs2Units(s: seq<byte>, i: nat, cap: nat): (out: seq<u16>)
    ensures |out| <= cap
    ensures forall k :: 0 <= k < |out| ==> out[k] != 0 && IsEncodable(out[k])
    decreases cap
  {
    if cap == 0 then []
    else
      var d := Decode(s, i);
      if d.cp == 0 then [] else [Ucs2Unit(d.cp)] + Ucs2Units(s, d.next, cap - 1)
  }

  /**
   * The units `PHYSFS_utf8ToUtf16` writes before its terminator: a pair that
   * no longer fits ends the output before its high surrogate.
   */
  function Utf16Units(s: seq<byte>, i: nat, cap: nat): (out: seq<u16>)
    ensures |out| <= cap
    ensures forall k :: 0 <= k < |out| ==> out[k] != 0
    decreases cap
  {
    if cap == 0 then []
    else
      var d := Decode(s, i);
      if d.cp == 0 then []
      else
        var g := Utf16Group(d.cp);
        if |g| > cap then [] else g + Utf16Units(s, d.next, cap - |g|)
  }

  // One step of each converter: a decoded value other than the terminator
  // contributes its units, after which the rest of the output follows.

  lemma Ucs4Step(s: seq<byte>, i: nat, cap: nat, out: seq<u32>, total: seq<u32>)
    requires cap > 0 && Decode(s, i).cp != 0
    requires out + Ucs4Units(s, i, cap) == total
    ensures (out + [Ucs4Unit(Decode(s, i).cp)]) + Ucs4Units(s, Decode(s, i).next, cap - 1) == total
  {
    var u := Ucs4Unit(Decode(s, i).cp);
    assert Ucs4Units(s, i, cap) == [u] + Ucs4Units(s, Decode(s, i).next, cap - 1);
    ConcatAssociative(out, [u], Ucs4Units(s, Decode(s, i).next, cap - 1));
  }

  lemma Ucs2Step(s: seq<byte>, i: nat, cap: nat, out: seq<u16>, total: seq<u16>)
    requires cap > 0 && Decode(s, i).cp != 0
    requires out + Ucs2Units(s, i, cap) == total
    ensures (out + [Ucs2Unit(Decode(s, i).cp)]) + Ucs2Units(s, Decode(s, i).next, cap - 1) == total
  {
    var u := Ucs2Unit(Decode(s, i).cp);
    assert Ucs2Units(s, i, cap) == [u] + Ucs2Units(s, Decode(s, i).next, cap - 1);
    ConcatAssociative(out, [u], Ucs2Units(s, Decode(s, i).next, cap - 1));
  }

  lemma Utf16StepSingle(s: seq<byte>, i: nat, cap: nat, out: seq<u16>, total: seq<u16>)
    requires cap > 0 && Decode(s, i).cp != 0 && Ucs4Unit(Decode(s, i).cp) <= 0xFFFF
    requires out + Utf16Units(s, i, cap) == total
    ensures (out + [Ucs4Unit(Decode(s, i).cp)]) + Utf16Units(s, Decode(s, i).next, cap - 1) == total
  {
    var u := Ucs4Unit(Decode(s, i).cp);
    assert Utf16Units(s, i, cap) == [u] + Utf16Units(s, Decode(s, i).next, cap - 1);
    ConcatAssociative(out, [u], Utf16Units(s, Decode(s, i).next, cap - 1));
  }

  lemma Utf16StepPair(s: seq<byte>, i: nat, cap: nat, out: seq<u16>, total: seq<u16>)
    requires cap > 1 && Decode(s, i).cp != 0 && Ucs4Unit(Decode(s, i).cp) > 0xFFFF
    requires out + Utf16Units(s, i, cap) == total
    ensures var c := Ucs4Unit(Decode(s, i).cp);
      (out + [HighSurrogate(c)] + [LowSurrogate(c)]) + Utf16Units(s, Decode(s, i).next, cap - 2) == total
  {
    var c := Ucs4Unit(Decode(s, i).cp);
    var g := [HighSurrogate(c), LowSurrogate(c)];
    assert Utf16Units(s, i, cap) == g + Utf16Units(s, Decode(s, i).next, cap - 2);
    ConcatAssociative(out, g, Utf16Units(s, Decode(s, i).next, cap - 2));
    assert out + [HighSurrogate(c)] + [LowSurrogate(c)] == out + g;
  }

  // Where each converter stops: no room left, or the terminator reached
  // (or, for UTF-16, a pair that no longer fits).

  lemma Ucs4Stop(s: seq<byte>, i: nat, cap: nat)
    requires cap == 0 || Decode(s, i).cp == 0
    ensures Ucs4Units(s, i, cap) == []
  {
  }

  lemma Ucs2Stop(s: seq<byte>, i: nat, cap: nat)
    requires cap == 0 || Decode(s, i).cp == 0
    ensures Ucs2Units(s, i, cap) == []
  {
  }

  lemma Utf16Stop(s: seq<byte>, i: nat, cap: nat)
    requires cap == 0 || Decode(s, i).cp == 0 || (cap == 1 && Ucs4Unit(Decode(s, i).cp) > 0xFFFF)
    ensures Utf16Units(s, i, cap) == []
  {
  }

  /**
   * UTF-8 to UCS-4: with `len >= 4` bytes of room, writes the first
   * `len / 4 - 1` decoded values (the sentinel as '?'), stopping at the
   * source's terminator, then a 0; nothing after that terminator changes.
   */
  method Utf8ToUcs4(src: seq<byte>, dst: array<u32>, len: nat)
    requires len >= 4
    requires len / 4 <= dst.Length
    modifies dst
    ensures var out := Ucs4Units(src, 0, len / 4 - 1);
      && (|out| + 1) * 4 <= len
      && dst[..|out|] == out && dst[|out|] == 0
      && forall k | |out| < k < dst.Length :: dst[k] == old(dst[k])
  {
    var room := len - 4;  // save room for the terminator
    var i, n := 0, 0;
    ghost var left: nat, rem: nat := len / 4 - 1, len % 4;  // units of room left for content
    ghost var out: seq<u32>, total := [], Ucs4Units(src, 0, left);
    while room >= 4
      invariant room == 4 * left + rem && rem < 4 && n + left == len / 4 - 1
      invariant room >= 4 <==> left > 0
      invariant dst[..n] == out && out + Ucs4Units(src, i, left) == total
      invariant forall k | n <= k < dst.Length :: dst[k] == old(dst[k])
    {
      if Decode(src, i).cp == 0 {
        break;
      }
      i, n, out := Ucs4Pass(src, dst, i, n, left, out, total);
      room, left := room - 4, left - 1;
    }
    Ucs4Stop(src, i, left);
    assert Ucs4Units(src, 0, len / 4 - 1) == out && |out| == n;
    Put(dst, n, 0, out);
  }

  /** One pass of the UCS-4 loop past its terminator test: decodes one value and stores it. */
  method Ucs4Pass(src: seq<byte>, dst: array<u32>, i: nat, n: nat, ghost left: nat,
                  ghost out: seq<u32>, ghost total: seq<u32>)
      returns (i': nat, n': nat, ghost out': seq<u32>)
    requires left > 0 && Decode(src, i).cp != 0 && n + left <= dst.Length
    requires dst[..n] == out && out + Ucs4Units(src, i, left) == total
    modifies dst
    ensures i' == Decode(src, i).next && n' == n + 1
    ensures dst[..n'] == out' && out' + Ucs4Units(src, i', left - 1) == total
    ensures forall k | n' <= k < dst.Length :: dst[k] == old(dst[k])
  {
    var d := Decode(src, i);
    var cp: u32 := if d.cp == BOGUS_VALUE then REPLACEMENT else d.cp;
    Ucs4Step(src, i, left, out, total);
    Put(dst, n, cp, out);
    i', n', out' := d.next, n + 1, out + [cp];
  }

  /** One pass of the UCS-2 loop past its terminator test: as UCS-4, with values above 0xFFFF as '?'. */
  method Ucs2Pass(src: seq<byte>, dst: array<u16>, i: nat, n: nat, ghost left: nat,
                  ghost out: seq<u16>, ghost total: seq<u16>)
      returns (i': nat, n': nat, ghost out': seq<u16>)
    requires left > 0 && Decode(src, i).cp != 0 && n + left <= dst.Length
    requires dst[..n] == out && out + Ucs2Units(src, i, left) == total
    modifies dst
    ensures i' == Decode(src, i).next && n' == n + 1
    ensures dst[..n'] == out' && out' + Ucs2Units(src, i', left - 1) == total
    ensures forall k | n' <= k < dst.Length :: dst[k] == old(dst[k])
  {
    var d := Decode(src, i);
    var cp: u32 := if d.cp == BOGUS_VALUE then REPLACEMENT else d.cp;
    if cp > 0xFFFF {
      cp := REPLACEMENT;
    }
    Ucs2Step(src, i, left, out, total);
    Put(dst, n, cp as u16, out);
    i', n', out' := d.next, n + 1, out + [cp as u16];
  }

  /**
   * UTF-8 to UCS-2: as UCS-4, in 2-byte units, with every value above
   * 0xFFFF written as '?'.
   */
  method Utf8ToUcs2(src: seq<byte>, dst: array<u16>, len: nat)
    requires len >= 2
    requires len / 2 <= dst.Length
    modifies dst
    ensures var out := Ucs2Units(src, 0, len / 2 - 1);
      && (|out| + 1) * 2 <= len
      && dst[..|out|] == out && dst[|out|] == 0
      && forall k | |out| < k < dst.Length :: dst[k] == old(dst[k])
  {
    var room := len - 2;  // save room for the terminator
    var i, n := 0, 0;
    ghost var left: nat, odd: nat := len / 2 - 1, len % 2;  // units of room left for content
    ghost var out: seq<u16>, total := [], Ucs2Units(src, 0, left);
    while room >= 2
      invariant room == 2 * left + odd && odd < 2 && n + left == len / 2 - 1
      invariant room >= 2 <==> left > 0
      invariant dst[..n] == out && out + Ucs2Units(src, i, left) == total
      invariant forall k | n <= k < dst.Length :: dst[k] == old(dst[k])
    {
      if Decode(src, i).cp == 0 {
        break;
      }
      i, n, out := Ucs2Pass(src, dst, i, n, left, out, total);
      room, left := room - 2, left - 1;
    }
    Ucs2Stop(src, i, left);
    assert Ucs2Units(src, 0, len / 2 - 1) == out && |out| == n;
    Put(dst, n, 0, out);
  }

  /**
   * One pass of the loop of `PHYSFS_utf8ToUtf16`, with `room` bytes left
   * for content: decodes the value at `i` and stores its units, unless it
   * is the terminator or a pair no longer fits (`stop`). `left` and `odd`
   * split `room` into whole units and a spare byte.
   */
  method Utf16Pass(src: seq<byte>, dst: array<u16>, i: nat, n: nat, room: nat,
                   ghost left: nat, ghost odd: nat, ghost out: seq<u16>, ghost total: seq<u16>)
      returns (stop: bool, i': nat, n': nat, room': nat, ghost left': nat, ghost out': seq<u16>)
    requires room >= 2 && room == 2 * left + odd && odd < 2 && n + left < dst.Length
    requires dst[..n] == out && out + Utf16Units(src, i, left) == total
    modifies dst
    ensures stop ==> Utf16Units(src, i, left) == [] && n' == n && out' == out
    // a pass that goes on consumes one decoded value and writes its one or two units
    ensures !stop ==> left' < left && n < n' <= n + 2 && i' == Decode(src, i).next
    ensures room' == 2 * left' + odd && n' + left' == n + left
    ensures dst[..n'] == out' && out' + Utf16Units(src, i', left') == total
    ensures forall k | n' <= k < dst.Length :: dst[k] == old(dst[k])
  {
    var d := Decode(src, i);
    if d.cp == 0 {
      return true, i, n, room, left, out;
    }
    var cp: u32 := if d.cp == BOGUS_VALUE then REPLACEMENT else d.cp;
    n', room', left', out' := n, room, left, out;
    if cp > 0xFFFF {
      if room < 4 {
        return true, i, n, room, left, out;  // no room for the pair
      }
      Utf16StepPair(src, i, left, out, total);
      Put(dst, n', HighSurrogate(cp), out');
      out' := out' + [HighSurrogate(cp)];
      n', room', left' := n' + 1, room' - 2, left' - 1;
      cp := LowSurrogate(cp);
    } else {
      Utf16StepSingle(src, i, left, out, total);
    }
    Put(dst, n', cp as u16, out');
    n', i', room', left' := n' + 1, d.next, room' - 2, left' - 1;
    out' := out' + [cp as u16];
    stop := false;
  }

  /**
   * UTF-8 to UTF-16: as UCS-2, but a value above 0xFFFF becomes a surrogate
   * pair, and when fewer than 4 bytes of room remain for one the conversion
   * stops rather than write its high surrogate.
   */
  method Utf8ToUtf16(src: seq<byte>, dst: array<u16>, len: nat)
    requires len >= 2
    requires len / 2 <= dst.Length
    modifies dst
    ensures var out := Utf16Units(src, 0, len / 2 - 1);
      && (|out| + 1) * 2 <= len
      && dst[..|out|] == out && dst[|out|] == 0
      && forall k | |out| < k < dst.Length :: dst[k] == old(dst[k])
  {
    var room := len - 2;  // save room for the terminator
    var i, n := 0, 0;
    ghost var left: nat, odd: nat := len / 2 - 1, len % 2;  // units of room left for content
    ghost var out: seq<u16>, total := [], Utf16Units(src, 0, left);
    var stop := false;
    while room >= 2 && !stop
      invariant room == 2 * left + odd && odd < 2 && n + left == len / 2 - 1
      invariant room >= 2 <==> left > 0
      invariant dst[..n] == out && out + Utf16Units(src, i, left) == total
      invariant stop ==> Utf16Units(src, i, left) == []
      invariant forall k | n <= k < dst.Length :: dst[k] == old(dst[k])
      decreases left, !stop
    {
      stop, i, n, room, left, out := Utf16Pass(src, dst, i, n, room, left, odd, out, total);
    }
    Utf16Stop(src, i, left);
    assert Utf16Units(src, 0, len / 2 - 1) == out && |out| == n;
    Put(dst, n, 0, out);
  }

  // ---------------------------------------------------------------------
  // What the output is
  // ---------------------------------------------------------------------

  /**
   * UTF-8 to UCS-4 writes the decoded values, the sentinel as '?', cut to
   * the room there is.
   */
  lemma {:induction false} Ucs4UnitsAreCodepoints(s: seq<byte>, i: nat, cap: nat)
    ensures Ucs4Units(s, i, cap) == Take(Ucs4Of(Codepoints(s, i)), cap)
    decreases cap
  {
    var d := Decode(s, i);
    if cap > 0 && d.cp != 0 {
      assert Codepoints(s, i) == [d.cp] + Codepoints(s, d.next);
      Ucs4UnitsAreCodepoints(s, d.next, cap - 1);
      Ucs4OfTake(d.cp, Codepoints(s, d.next), cap);
    } else {
      assert Take(Ucs4Of(Codepoints(s, i)), cap) == [];
    }
  }

  lemma Ucs4OfTake(x: u32, rest: seq<u32>, n: nat)
    requires n > 0
    ensures Take(Ucs4Of([x] + rest), n) == [Ucs4Unit(x)] + Take(Ucs4Of(rest), n - 1)
  {
    assert Ucs4Of([x] + rest) == [Ucs4Unit(x)] + Ucs4Of(rest);
    TakeCons(Ucs4Unit(x), Ucs4Of(rest), n);
  }

  /**
   * UTF-8 to UCS-2 writes the decoded values, the sentinel and everything
   * above 0xFFFF as '?', cut to the room there is.
   */
  lemma {:induction false} Ucs2UnitsAreCodepoints(s: seq<byte>, i: nat, cap: nat)
    ensures Ucs2Units(s, i, cap) == Take(Ucs2Of(Codepoints(s, i)), cap)
    decreases cap
  {
    var d := Decode(s, i);
    if cap > 0 && d.cp != 0 {
      assert Codepoints(s, i) == [d.cp] + Codepoints(s, d.next);
      Ucs2UnitsAreCodepoints(s, d.next, cap - 1);
      Ucs2OfTake(d.cp, Codepoints(s, d.next), cap);
    } else {
      assert Take(Ucs2Of(Codepoints(s, i)), cap) == [];
    }
  }

  lemma Ucs2OfTake(x: u32, rest: seq<u32>, n: nat)
    requires n > 0
    ensures Take(Ucs2Of([x] + rest), n) == [Ucs2Unit(x)] + Take(Ucs2Of(rest), n - 1)
  {
    assert Ucs2Of([x] + rest) == [Ucs2Unit(x)] + Ucs2Of(rest);
    TakeCons(Ucs2Unit(x), Ucs2Of(rest), n);
  }

  /**
   * UTF-8 to UTF-16 writes a prefix of the UTF-16 form of the decoded values,
   * all of it when it fits.
   */
  lemma {:induction false} Utf16UnitsAreCodepoints(s: seq<byte>, i: nat, cap: nat)
    ensures Utf16Units(s, i, cap) <= Utf16Of(Codepoints(s, i))
    ensures |Utf16Of(Codepoints(s, i))| <= cap ==> Utf16Units(s, i, cap) == Utf16Of(Codepoints(s, i))
    decreases cap
  {
    var d := Decode(s, i);
    if d.cp != 0 {
      var rest := Codepoints(s, d.next);
      var g := Utf16Group(d.cp);
      assert Codepoints(s, i) == [d.cp] + rest;
      assert Utf16Of([d.cp] + rest) == g + Utf16Of(rest) by {
        assert ([d.cp] + rest)[1..] == rest;
      }
      if cap >= |g| {
        Utf16UnitsAreCodepoints(s, d.next, cap - |g|);
      }
    }
  }

  /** How many of the values' unit groups fit in turn in `cap` units of room. */
  function Utf16FitCount(cps: seq<u32>, cap: nat): (k: nat)
    ensures k <= |cps|
  {
    if cps == [] then 0
    else
      var n := |Utf16Group(cps[0])|;
      if n > cap then 0 else 1 + Utf16FitCount(cps[1..], cap - n)
  }

  /** The unit groups of the values in turn while each fits in the room left. */
  function Utf16Fitting(cps: seq<u32>, cap: nat): (out: seq<u16>)
    ensures |out| <= cap
  {
    if cps == [] then []
    else
      var g := Utf16Group(cps[0]);
      if |g| > cap then [] else g + Utf16Fitting(cps[1..], cap - |g|)
  }

  /**
   * UTF-8 to UTF-16 writes whole groups only: the groups of the decoded
   * values that fit in turn, and the next group, if any, is the one that
   * does not fit in the room left.
   */
  lemma Utf16UnitsWhole(s: seq<byte>, i: nat, cap: nat)
    ensures var cps := Codepoints(s, i); var k := Utf16FitCount(cps, cap);
      && Utf16Units(s, i, cap) == Utf16Of(cps[..k])
      && (k < |cps| ==> |Utf16Units(s, i, cap)| + |Utf16Group(cps[k])| > cap)
  {
    Utf16UnitsFitting(s, i, cap);
    Utf16FittingWhole(Codepoints(s, i), cap);
  }

  /** The UTF-16 loop is the list of groups that fit, over the decoded values. */
  lemma {:induction false} Utf16UnitsFitting(s: seq<byte>, i: nat, cap: nat)
    ensures Utf16Units(s, i, cap) == Utf16Fitting(Codepoints(s, i), cap)
    decreases cap
  {
    var d := Decode(s, i);
    var cps := Codepoints(s, i);
    if d.cp == 0 {
      assert cps == [];
    } else {
      assert cps == [d.cp] + Codepoints(s, d.next);
      assert cps[0] == d.cp && cps[1..] == Codepoints(s, d.next);
      var g := Utf16Group(d.cp);
      if |g| <= cap {
        Utf16UnitsFitting(s, d.next, cap - |g|);
      }
    }
  }

  /** The groups that fit are those of the first `Utf16FitCount` values, and the next one does not fit. */
  lemma {:induction false} Utf16FittingWhole(cps: seq<u32>, cap: nat)
    ensures var k := Utf16FitCount(cps, cap);
      && Utf16Fitting(cps, cap) == Utf16Of(cps[..k])
      && (k < |cps| ==> |Utf16Fitting(cps, cap)| + |Utf16Group(cps[k])| > cap)
    decreases |cps|
  {
    if cps != [] {
      var g := Utf16Group(cps[0]);
      if |g| <= cap {
        var rest := cps[1..];
        Utf16FittingWhole(rest, cap - |g|);
        var k := Utf16FitCount(rest, cap - |g|);
        assert cps[..k + 1][0] == cps[0] && cps[..k + 1][1..] == rest[..k];
        assert k + 1 < |cps| ==> cps[k + 1] == rest[k];
      } else {
        assert cps[..0] == [];
      }
    }
  }

  /**
   * The surrogate pair written for a value above 0xFFFF decodes back to it
   * by section 2.2 of RFC 2781: 0x10000 plus the ten bits of each half.
   */
  lemma SurrogatePairInverts(c: u32)
    requires c > 0xFFFF
    ensures 0x10000 + (HighSurrogate(c) - 0xD800) * 0x400 + (LowSurrogate(c) - 0xDC00) ==
      0x10000 + (c - 0x10000) % 0x10_0000
    ensures c <= MAX_CODEPOINT ==>
      0x10000 + (HighSurrogate(c) - 0xD800) * 0x400 + (LowSurrogate(c) - 0xDC00) == c
  {
    var v := c - 0x10000;
    var q, r := v / 0x400, v % 0x400;
    assert v == q * 0x400 + r;
    assert q == q / 0x400 * 0x400 + q % 0x400;
    assert v == q / 0x400 * 0x10_0000 + (q % 0x400 * 0x400 + r);
    assert 0 <= q % 0x400 * 0x400 + r < 0x10_0000;
    assert v % 0x10_0000 == q % 0x400 * 0x400 + r;
  }
}
