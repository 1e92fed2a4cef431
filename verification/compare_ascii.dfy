/**
 * The ASCII-only case-insensitive comparators `__PHYSFS_stricmpASCII` and
 * `__PHYSFS_strnicmpASCII`: byte by byte, folding only 'A'..'Z' to
 * 'a'..'z'. Bytes are read as unsigned, so bytes 0x80..0xFF sort after
 * every ASCII byte.
 */
module AsciiCompare {
  import opened Scalars
  import opened Lexicographic

  /** 'A'..'Z' become 'a'..'z'; every other byte stays as it is. */
  function AsciiFold(b: byte): (f: byte)
    ensures f == 0 <==> b == 0
    ensures 'A' as int <= b <= 'Z' as int ==> f == b + 32
    ensures !('A' as int <= b <= 'Z' as int) ==> f == b
    // no upper-case letter survives
    ensures !('A' as int <= f <= 'Z' as int)
  {
    if 'A' as int <= b <= 'Z' as int then b + 32 else b
  }

  /**
   * Folding is idempotent, and two bytes fold alike exactly when they are
   * the same byte or the same letter in the two cases.
   */
  lemma AsciiFoldMatches(a: byte, b: byte)
    ensures AsciiFold(AsciiFold(a)) == AsciiFold(a)
    ensures AsciiFold(a) == AsciiFold(b) <==>
      a == b || ('A' as int <= a <= 'Z' as int && b == a + 32) ||
      ('A' as int <= b <= 'Z' as int && a == b + 32)
  {
  }

  /** What `__PHYSFS_stricmpASCII` returns for the strings from offset `k` on. */
  function StricmpAsciiFrom(s1: seq<byte>, s2: seq<byte>, k: nat): (r: int)
    ensures -1 <= r <= 1
    decreases if k < |s1| then |s1| - k else 0
  {
    var c1, c2 := AsciiFold(ByteAt(s1, k)), AsciiFold(ByteAt(s2, k));
    if c1 < c2 then -1
    else if c1 > c2 then 1
    else if c1 == 0 then 0
    else StricmpAsciiFrom(s1, s2, k + 1)
  }

  /** The same with at most `n` byte pairs compared. */
  function StrnicmpAsciiFrom(s1: seq<byte>, s2: seq<byte>, k: nat, n: u32): (r: int)
    ensures -1 <= r <= 1
    ensures n == 0 ==> r == 0
    decreases n
  {
    if n == 0 then 0
    else
      var c1, c2 := AsciiFold(ByteAt(s1, k)), AsciiFold(ByteAt(s2, k));
      if c1 < c2 then -1
      else if c1 > c2 then 1
      else if c1 == 0 then 0
      else StrnicmpAsciiFrom(s1, s2, k + 1, n - 1)
  }

  /** The folded bytes from offset `k` up to (not including) the terminator. */
  function FoldedBytes(s: seq<byte>, k: nat): (f: seq<int>)
    ensures forall j | 0 <= j < |f| :: f[j] != 0
    decreases if k < |s| then |s| - k else 0
  {
    if ByteAt(s, k) == 0 then [] else [AsciiFold(ByteAt(s, k)) as int] + FoldedBytes(s, k + 1)
  }

  /** `__PHYSFS_stricmpASCII`. */
  method StricmpAscii(s1: seq<byte>, s2: seq<byte>) returns (r: int)
    ensures r == StricmpAsciiFrom(s1, s2, 0)
  {
    var k: nat := 0;
    while true
      invariant StricmpAsciiFrom(s1, s2, k) == StricmpAsciiFrom(s1, s2, 0)
      decreases if k < |s1| then |s1| - k else 0
    {
      var c1, c2 := AsciiFold(ByteAt(s1, k)), AsciiFold(ByteAt(s2, k));
      k := k + 1;
      if c1 < c2 {
        return -1;
      } else if c1 > c2 {
        return 1;
      } else if c1 == 0 {
        break;
      }
    }
    return 0;
  }

  /** `__PHYSFS_strnicmpASCII`. */
  method StrnicmpAscii(s1: seq<byte>, s2: seq<byte>, n: u32) returns (r: int)
    ensures r == StrnicmpAsciiFrom(s1, s2, 0, n)
  {
    var k: nat, left: u32 := 0, n;
    while left > 0
      invariant StrnicmpAsciiFrom(s1, s2, k, left) == StrnicmpAsciiFrom(s1, s2, 0, n)
      decreases left
    {
      left := left - 1;
      var c1, c2 := AsciiFold(ByteAt(s1, k)), AsciiFold(ByteAt(s2, k));
      k := k + 1;
      if c1 < c2 {
        return -1;
      } else if c1 > c2 {
        return 1;
      } else if c1 == 0 {
        return 0;
      }
    }
    return 0;
  }

  /**
   * The result is the lexicographic order of the folded strings, so it is
   * 0 exactly when they are equal.
   */
  lemma {:induction false} StricmpAsciiIsFoldedOrder(s1: seq<byte>, s2: seq<byte>, k: nat)
    ensures StricmpAsciiFrom(s1, s2, k) == LexCompare(FoldedBytes(s1, k), FoldedBytes(s2, k))
    ensures StricmpAsciiFrom(s1, s2, k) == 0 <==> FoldedBytes(s1, k) == FoldedBytes(s2, k)
    decreases if k < |s1| then |s1| - k else 0
  {
    var c1, c2 := AsciiFold(ByteAt(s1, k)), AsciiFold(ByteAt(s2, k));
    var f1, f2 := FoldedBytes(s1, k), FoldedBytes(s2, k);
    if c1 == c2 && c1 != 0 {
      StricmpAsciiIsFoldedOrder(s1, s2, k + 1);
      assert f1[0] == f2[0] && f1[1..] == FoldedBytes(s1, k + 1) && f2[1..] == FoldedBytes(s2, k + 1);
    }
  }

  /** A string matches itself. */
  lemma {:induction false} StricmpAsciiReflexive(s: seq<byte>, k: nat)
    ensures StricmpAsciiFrom(s, s, k) == 0
    decreases if k < |s| then |s| - k else 0
  {
    if ByteAt(s, k) != 0 {
      StricmpAsciiReflexive(s, k + 1);
    }
  }

  /** Swapping the strings negates the result. */
  lemma {:induction false} StricmpAsciiAntisymmetric(s1: seq<byte>, s2: seq<byte>, k: nat)
    ensures StricmpAsciiFrom(s1, s2, k) == -StricmpAsciiFrom(s2, s1, k)
    decreases if k < |s1| then |s1| - k else 0
  {
    if ByteAt(s1, k) != 0 && AsciiFold(ByteAt(s1, k)) == AsciiFold(ByteAt(s2, k)) {
      StricmpAsciiAntisymmetric(s1, s2, k + 1);
    }
  }

  /** Comparing at most `n` pairs is comparing the first `n` folded bytes of each string. */
  lemma {:induction false} StrnicmpAsciiIsPrefixOrder(s1: seq<byte>, s2: seq<byte>, k: nat, n: u32)
    ensures StrnicmpAsciiFrom(s1, s2, k, n) ==
      LexCompare(Take(FoldedBytes(s1, k), n), Take(FoldedBytes(s2, k), n))
    decreases n
  {
    if n == 0 {
      assert Take(FoldedBytes(s1, k), n) == [] && Take(FoldedBytes(s2, k), n) == [];
    } else {
      var c1, c2 := AsciiFold(ByteAt(s1, k)) as int, AsciiFold(ByteAt(s2, k)) as int;
      TakeFolded(s1, k, n);
      TakeFolded(s2, k, n);
      if c1 != 0 && c2 != 0 {
        var t1, t2 := Take(FoldedBytes(s1, k + 1), n - 1), Take(FoldedBytes(s2, k + 1), n - 1);
        LexCompareCons(c1, t1, c2, t2);
        if c1 == c2 {
          StrnicmpAsciiIsPrefixOrder(s1, s2, k + 1, n - 1);
        }
      }
    }
  }

  /** The first `n` folded bytes from offset `k`: the one at `k`, then up to `n - 1` more. */
  lemma TakeFolded(s: seq<byte>, k: nat, n: nat)
    requires n > 0
    ensures Take(FoldedBytes(s, k), n) ==
      if ByteAt(s, k) == 0 then [] else [AsciiFold(ByteAt(s, k)) as int] + Take(FoldedBytes(s, k + 1), n - 1)
  {
    if ByteAt(s, k) != 0 {
      TakeCons(AsciiFold(ByteAt(s, k)) as int, FoldedBytes(s, k + 1), n);
    }
  }

  /** Two non-empty sequences compare by their heads, then by their tails. */
  lemma LexCompareCons(x: int, a: seq<int>, y: int, b: seq<int>)
    ensures LexCompare([x] + a, [y] + b) == if x < y then -1 else if x > y then 1 else LexCompare(a, b)
  {
    assert ([x] + a)[1..] == a && ([y] + b)[1..] == b;
  }

  /** A non-zero bounded result is the unbounded result. */
  lemma {:induction false} StrnicmpAsciiAgrees(s1: seq<byte>, s2: seq<byte>, k: nat, n: u32)
    ensures StrnicmpAsciiFrom(s1, s2, k, n) != 0 ==>
      StrnicmpAsciiFrom(s1, s2, k, n) == StricmpAsciiFrom(s1, s2, k)
    decreases n
  {
    if n > 0 && ByteAt(s1, k) != 0 && AsciiFold(ByteAt(s1, k)) == AsciiFold(ByteAt(s2, k)) {
      StrnicmpAsciiAgrees(s1, s2, k + 1, n - 1);
    }
  }

  /** "ABC" matches "abc", and '[' (0x5B) sorts before "A": it is compared with 'a' (0x61). */
  lemma StricmpAsciiExamples()
    ensures StricmpAsciiFrom([0x41, 0x42, 0x43, 0], [0x61, 0x62, 0x63, 0], 0) == 0
    ensures StricmpAsciiFrom([0x5B, 0], [0x41, 0], 0) == -1
  {
    assert StricmpAsciiFrom([0x41, 0x42, 0x43, 0], [0x61, 0x62, 0x63, 0], 3) == 0;
  }
}
