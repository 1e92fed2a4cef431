/**
 * Integer widths, the in-band sentinel and the replacement character shared
 * by the decoder, the encoder, the converters and the comparators.
 *
 * Every source string is a NUL-terminated C buffer. It is modelled as a
 * finite sequence read through `ByteAt`/`Unit16At`/`Unit32At`, which yield 0
 * past the end of the sequence: a C string is its elements up to and including
 * its terminator, and whatever memory a cursor may step into after the
 * terminator is the rest of the sequence, then zeros.
 */
module Scalars {

  /** An unsigned 8-bit value (`PHYSFS_uint8`, or a `char` read as unsigned). */
  type byte = b: int | 0 <= b < 0x100

  /** An unsigned 16-bit value (`PHYSFS_uint16`). */
  type u16 = u: int | 0 <= u < 0x1_0000

  /** An unsigned 32-bit value (`PHYSFS_uint32`). */
  type u32 = u: int | 0 <= u < 0x1_0000_0000

  /** Returned by the decoder for malformed input; never a Unicode codepoint. */
  const BOGUS_VALUE: u32 := 0xFFFF_FFFF

  /** What malformed or unrepresentable input becomes in any output: '?'. */
  const REPLACEMENT: u32 := 0x3F

  /** The largest Unicode codepoint. */
  const MAX_CODEPOINT: u32 := 0x10FFFF

  /**
   * The seven UTF-16 surrogate values that both the decoder and the encoder
   * treat as illegal. The rest of the range 0xD800..0xDFFF passes through.
   */
  predicate IsRejectedSurrogate(c: int) {
    c == 0xD800 || c == 0xDB7F || c == 0xDB80 || c == 0xDBFF ||
    c == 0xDC00 || c == 0xDF80 || c == 0xDFFF
  }

  /** A value the encoder writes unchanged (anything else becomes '?'). */
  predicate IsEncodable(c: int) {
    0 <= c <= MAX_CODEPOINT && c != 0xFFFE && c != 0xFFFF && !IsRejectedSurrogate(c)
  }

  /** Number of UTF-8 bytes the encoder emits for a value below 0x110000. */
  function EncodedLength(c: int): nat {
    if c < 0x80 then 1 else if c < 0x800 then 2 else if c < 0x10000 then 3 else 4
  }

  /** The byte at offset `k` of a byte buffer; memory past the buffer reads as 0. */
  function ByteAt(s: seq<byte>, k: nat): byte {
    if k < |s| then s[k] else 0
  }

  /** The unit at offset `k` of a 16-bit buffer; past the buffer reads as 0. */
  function Unit16At(s: seq<u16>, k: nat): u16 {
    if k < |s| then s[k] else 0
  }

  /** The unit at offset `k` of a 32-bit buffer; past the buffer reads as 0. */
  function Unit32At(s: seq<u32>, k: nat): u32 {
    if k < |s| then s[k] else 0
  }

  /** The first `n` elements of `xs`, or all of them when there are fewer. */
  function Take<T>(xs: seq<T>, n: nat): (r: seq<T>)
    ensures |r| == if n < |xs| then n else |xs|
  {
    if n < |xs| then xs[..n] else xs
  }

  /** Taking from a sequence with a head keeps the head and takes one fewer from the rest. */
  lemma TakeCons<T>(x: T, ys: seq<T>, n: nat)
    requires n > 0
    ensures Take([x] + ys, n) == [x] + Take(ys, n - 1)
  {
    if n - 1 < |ys| {
      assert ([x] + ys)[..n] == [x] + ys[..n - 1];
    }
  }

  lemma ConcatAssociative<T>(a: seq<T>, b: seq<T>, c: seq<T>)
    ensures (a + b) + c == a + (b + c)
  {
  }

  /**
   * Stores `u` at index `n` of a buffer whose first `n` cells hold `written`
   * (the C idiom `*(dst++) = u`): the prefix grows by `u`, later cells keep
   * their values.
   */
  method Put<T>(dst: array<T>, n: nat, u: T, ghost written: seq<T>)
    requires n < dst.Length && dst[..n] == written
    modifies dst
    ensures dst[..n] == written && dst[n] == u && dst[..n + 1] == written + [u]
    ensures forall k | n + 1 <= k < dst.Length :: dst[k] == old(dst[k])
  {
    dst[n] := u;
    assert dst[..n + 1] == dst[..n] + [u];
  }
}
