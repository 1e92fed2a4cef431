/**
 * The Unicode case-insensitive comparators `__PHYSFS_utf8stricmp` and
 * `__PHYSFS_utf8strnicmp`: both decode the two strings codepoint by
 * codepoint and return the first non-zero `utf8codepointcmp` result.
 *
 * Folding is per codepoint, so the order is the lexicographic order of the
 * strings' folded triples (`FoldedString`), and a codepoint whose fold
 * expands to several values never matches the string spelling them out.
 */
module Utf8Compare {
  import opened Scalars
  import opened Lexicographic
  import opened Utf8Decode
  import opened Utf8Encode
  import opened CaseFold

  // ---------------------------------------------------------------------
  // Reference definitions
  // ---------------------------------------------------------------------

  /**
   * What `__PHYSFS_utf8stricmp` returns for the strings from cursors `i1`
   * and `i2` on: the first non-zero codepoint comparison, or 0 once the
   * first string's codepoint is 0 with everything equal so far.
   */
  function StricmpFrom(t: FoldTable, s1: seq<byte>, i1: nat, s2: seq<byte>, i2: nat): (r: int)
    ensures -1 <= r <= 1
    decreases if i1 < |s1| then |s1| - i1 else 0
  {
    var d1, d2 := Decode(s1, i1), Decode(s2, i2);
    var rc := CodepointOrder(t, d1.cp, d2.cp);
    if rc != 0 then rc
    else if d1.cp == 0 then 0
    else StricmpFrom(t, s1, d1.next, s2, d2.next)
  }

  /** The same with at most `n` codepoint pairs compared. */
  function StrnicmpFrom(t: FoldTable, s1: seq<byte>, i1: nat, s2: seq<byte>, i2: nat, n: u32): (r: int)
    ensures -1 <= r <= 1
    ensures n == 0 ==> r == 0
    decreases n
  {
    if n == 0 then 0
    else
      var d1, d2 := Decode(s1, i1), Decode(s2, i2);
      var rc := CodepointOrder(t, d1.cp, d2.cp);
      if rc != 0 then rc
      else if d1.cp == 0 then 0
      else StrnicmpFrom(t, s1, d1.next, s2, d2.next, n - 1)
  }

  /**
   * The comparison on decoded codepoint lists: an exhausted list reads as
   * the terminator 0, as the decoder keeps returning 0 at a NUL.
   */
  function ListCmp(t: FoldTable, a: seq<u32>, b: seq<u32>): int
  {
    var c1 := if a == [] then 0 else a[0];
    var c2 := if b == [] then 0 else b[0];
    var rc := CodepointOrder(t, c1, c2);
    if rc != 0 then rc
    else if a == [] then 0
    else ListCmp(t, a[1..], if b == [] then [] else b[1..])
  }

  /** The folded triples of a codepoint list, one after another. */
  function FoldedString(t: FoldTable, cs: seq<u32>): (f: seq<int>)
    ensures |f| == 3 * |cs|
  {
    if cs == [] then [] else Values(FoldOf(t, cs[0])) + FoldedString(t, cs[1..])
  }

  // ---------------------------------------------------------------------
  // The comparators
  // ---------------------------------------------------------------------

  /** `__PHYSFS_utf8stricmp`. */
  method Utf8Stricmp(t: FoldTable, s1: seq<byte>, s2: seq<byte>) returns (r: int)
    ensures r == StricmpFrom(t, s1, 0, s2, 0)
  {
    var i1: nat, i2: nat := 0, 0;
    while true
      invariant StricmpFrom(t, s1, i1, s2, i2) == StricmpFrom(t, s1, 0, s2, 0)
      decreases if i1 < |s1| then |s1| - i1 else 0
    {
      var d1, d2 := Decode(s1, i1), Decode(s2, i2);
      var rc := CodepointCmp(t, d1.cp, d2.cp);
      if rc != 0 {
        return rc;
      } else if d1.cp == 0 {
        break;
      }
      i1, i2 := d1.next, d2.next;
    }
    return 0;
  }

  /** `__PHYSFS_utf8strnicmp`. */
  method Utf8Strnicmp(t: FoldTable, s1: seq<byte>, s2: seq<byte>, n: u32) returns (r: int)
    ensures r == StrnicmpFrom(t, s1, 0, s2, 0, n)
  {
    var i1: nat, i2: nat, left: u32 := 0, 0, n;
    while left > 0
      invariant StrnicmpFrom(t, s1, i1, s2, i2, left) == StrnicmpFrom(t, s1, 0, s2, 0, n)
      decreases left
    {
      var done;
      done, r, i1, i2, left := StrnicmpPass(t, s1, i1, s2, i2, left);
      if done {
        return;
      }
    }
    return 0;  // matched to n codepoints
  }

  /**
   * One pass of the loop of `__PHYSFS_utf8strnicmp`: compares the next two
   * codepoints and either returns, or moves both cursors past them and
   * counts one pair off `n`.
   */
  method StrnicmpPass(t: FoldTable, s1: seq<byte>, i1: nat, s2: seq<byte>, i2: nat, left: u32)
      returns (done: bool, rc: int, i1': nat, i2': nat, left': u32)
    requires left > 0
    ensures done ==> rc == StrnicmpFrom(t, s1, i1, s2, i2, left) && left' == left
    ensures !done ==> left' == left - 1 && rc == 0
    ensures !done ==> StrnicmpFrom(t, s1, i1', s2, i2', left') == StrnicmpFrom(t, s1, i1, s2, i2, left)
  {
    var d1, d2 := Decode(s1, i1), Decode(s2, i2);
    rc := CodepointCmp(t, d1.cp, d2.cp);
    if rc != 0 {
      return true, rc, i1, i2, left;
    } else if d1.cp == 0 {
      return true, 0, i1, i2, left;
    }
    return false, 0, d1.next, d2.next, left - 1;
  }

  // ---------------------------------------------------------------------
  // Properties
  // ---------------------------------------------------------------------

  /** Comparing strings is comparing their decoded codepoint lists. */
  lemma {:induction false} StricmpIsListCmp(t: FoldTable, s1: seq<byte>, i1: nat, s2: seq<byte>, i2: nat)
    ensures StricmpFrom(t, s1, i1, s2, i2) == ListCmp(t, Codepoints(s1, i1), Codepoints(s2, i2))
    decreases if i1 < |s1| then |s1| - i1 else 0
  {
    var d1, d2 := Decode(s1, i1), Decode(s2, i2);
    var a, b := Codepoints(s1, i1), Codepoints(s2, i2);
    if CodepointOrder(t, d1.cp, d2.cp) == 0 && d1.cp != 0 {
      StricmpIsListCmp(t, s1, d1.next, s2, d2.next);
      assert a[1..] == Codepoints(s1, d1.next);
      if d2.cp == 0 {
        assert d2.next == i2;
      } else {
        assert b[1..] == Codepoints(s2, d2.next);
      }
    }
  }

  /** A string matches itself. */
  lemma {:induction false} StricmpReflexive(t: FoldTable, s: seq<byte>, i: nat)
    ensures StricmpFrom(t, s, i, s, i) == 0
    decreases if i < |s| then |s| - i else 0
  {
    var d := Decode(s, i);
    if d.cp != 0 {
      StricmpReflexive(t, s, d.next);
    }
  }

  /** With a well-formed table, swapping the strings negates the result. */
  lemma {:induction false} StricmpAntisymmetric(t: FoldTable, s1: seq<byte>, i1: nat, s2: seq<byte>, i2: nat)
    requires WellFormedTable(t)
    ensures StricmpFrom(t, s1, i1, s2, i2) == -StricmpFrom(t, s2, i2, s1, i1)
    decreases if i1 < |s1| then |s1| - i1 else 0
  {
    var d1, d2 := Decode(s1, i1), Decode(s2, i2);
    CodepointOrderAntisymmetric(t, d1.cp, d2.cp);
    if CodepointOrder(t, d1.cp, d2.cp) == 0 {
      if d1.cp == 0 || d2.cp == 0 {
        if d1.cp != d2.cp {
          TerminatorSortsFirst(t, if d1.cp == 0 then d2.cp else d1.cp);
        }
      } else {
        StricmpAntisymmetric(t, s1, d1.next, s2, d2.next);
      }
    }
  }

  /**
   * With a well-formed table, the order of two codepoint lists is the
   * lexicographic order of their folded triples.
   */
  lemma {:induction false} ListCmpIsFoldedOrder(t: FoldTable, a: seq<u32>, b: seq<u32>)
    requires WellFormedTable(t)
    requires forall k | 0 <= k < |a| :: a[k] != 0
    requires forall k | 0 <= k < |b| :: b[k] != 0
    ensures ListCmp(t, a, b) == LexCompare(FoldedString(t, a), FoldedString(t, b))
  {
    if a == [] && b == [] {
    } else if a == [] {
      TerminatorSortsFirst(t, b[0]);
    } else if b == [] {
      TerminatorSortsFirst(t, a[0]);
    } else {
      var x, y := Values(FoldOf(t, a[0])), Values(FoldOf(t, b[0]));
      assert FoldedString(t, a) == x + FoldedString(t, a[1..]);
      assert FoldedString(t, b) == y + FoldedString(t, b[1..]);
      if FoldOf(t, a[0]) == FoldOf(t, b[0]) {
        ListCmpIsFoldedOrder(t, a[1..], b[1..]);
        LexCommonPrefix(x, FoldedString(t, a[1..]), FoldedString(t, b[1..]));
      } else {
        LexBlocksDiffer(x, FoldedString(t, a[1..]), y, FoldedString(t, b[1..]));
      }
    }
  }

  /**
   * With a well-formed table, `__PHYSFS_utf8stricmp` orders two strings as
   * their folded triples, and returns 0 exactly when those are equal.
   */
  lemma StricmpIsFoldedOrder(t: FoldTable, s1: seq<byte>, s2: seq<byte>)
    requires WellFormedTable(t)
    ensures var f1, f2 := FoldedString(t, Codepoints(s1, 0)), FoldedString(t, Codepoints(s2, 0));
      && StricmpFrom(t, s1, 0, s2, 0) == LexCompare(f1, f2)
      && (StricmpFrom(t, s1, 0, s2, 0) == 0 <==> f1 == f2)
  {
    StricmpIsListCmp(t, s1, 0, s2, 0);
    ListCmpIsFoldedOrder(t, Codepoints(s1, 0), Codepoints(s2, 0));
  }

  /**
   * With a well-formed table, strings of different codepoint counts never
   * match: each codepoint folds to exactly one triple.
   */
  lemma StricmpCountsDiffer(t: FoldTable, s1: seq<byte>, s2: seq<byte>)
    requires WellFormedTable(t)
    requires |Codepoints(s1, 0)| != |Codepoints(s2, 0)|
    ensures StricmpFrom(t, s1, 0, s2, 0) != 0
  {
    StricmpIsFoldedOrder(t, s1, s2);
  }

  /**
   * A single codepoint never matches a two-codepoint string, in particular
   * not the two values its fold expands to (U+00DF and "ss").
   */
  lemma StricmpNoExpansion(t: FoldTable, c: u32, x: u32, y: u32)
    requires WellFormedTable(t)
    requires IsEncodable(c) && IsEncodable(x) && IsEncodable(y) && c != 0 && x != 0 && y != 0
    ensures StricmpFrom(t, Encode(c) + [0], 0, Encode(x) + Encode(y) + [0], 0) != 0
  {
    CodepointsOfEncoded(c, [0]);
    ConcatAssociative(Encode(x), Encode(y), [0]);
    CodepointsOfEncoded(x, Encode(y) + [0]);
    CodepointsOfEncoded(y, [0]);
    StricmpCountsDiffer(t, Encode(c) + [0], Encode(x) + Encode(y) + [0]);
  }

  /** With the sample table, "ß" sorts after "ss", although U+00DF folds to "ss". */
  lemma SampleSharpS()
    ensures StricmpFrom(SampleTable, [0xC3, 0x9F, 0], 0, [0x73, 0x73, 0], 0) == 1
  {
    var sharp: seq<byte>, ss: seq<byte> := [0xC3, 0x9F, 0], [0x73, 0x73, 0];
    SampleTableOrder();
    DecodeSharpS();
    assert Decode(ss, 0) == Decoded(0x73, 1);
    assert StricmpFrom(SampleTable, sharp, 0, ss, 0) == CodepointOrder(SampleTable, 0xDF, 0x73);
  }

  /** C3 9F is the two-byte encoding of U+00DF. */
  lemma DecodeSharpS()
    ensures Decode([0xC3, 0x9F, 0], 0) == Decoded(0xDF, 2)
  {
  }

  /** Comparing at most `n` pairs is comparing the first `n` codepoints of each string. */
  lemma {:induction false} StrnicmpIsPrefixCmp(t: FoldTable, s1: seq<byte>, i1: nat, s2: seq<byte>, i2: nat, n: u32)
    ensures StrnicmpFrom(t, s1, i1, s2, i2, n) ==
      ListCmp(t, Take(Codepoints(s1, i1), n), Take(Codepoints(s2, i2), n))
    decreases n
  {
    if n == 0 {
      assert Take(Codepoints(s1, i1), n) == [] && Take(Codepoints(s2, i2), n) == [];
    } else {
      var d1, d2 := Decode(s1, i1), Decode(s2, i2);
      var a, b := Take(Codepoints(s1, d1.next), n - 1), Take(Codepoints(s2, d2.next), n - 1);
      TakeCodepoints(s1, i1, n);
      TakeCodepoints(s2, i2, n);
      ListCmpStep(t, d1.cp, a, d2.cp, b);
      if CodepointOrder(t, d1.cp, d2.cp) == 0 && d1.cp != 0 {
        StrnicmpIsPrefixCmp(t, s1, d1.next, s2, d2.next, n - 1);
        NothingAfterTerminator(s2, i2, n - 1);
      }
    }
  }

  /** The first `n` codepoints from a cursor: the one decoded there, then up to `n - 1` more. */
  lemma TakeCodepoints(s: seq<byte>, i: nat, n: nat)
    requires n > 0
    ensures var d := Decode(s, i);
      Take(Codepoints(s, i), n) == if d.cp == 0 then [] else [d.cp] + Take(Codepoints(s, d.next), n - 1)
  {
    var d := Decode(s, i);
    if d.cp != 0 {
      assert Codepoints(s, i) == [d.cp] + Codepoints(s, d.next);
      TakeCons(d.cp, Codepoints(s, d.next), n);
    }
  }

  /** At a terminator the cursor stays put, so nothing follows it. */
  lemma NothingAfterTerminator(s: seq<byte>, i: nat, n: nat)
    ensures Decode(s, i).cp == 0 ==> Take(Codepoints(s, Decode(s, i).next), n) == []
  {
  }

  /** One step of `ListCmp` on lists given by their heads (0 for an empty list) and tails. */
  lemma ListCmpStep(t: FoldTable, c1: u32, a: seq<u32>, c2: u32, b: seq<u32>)
    ensures ListCmp(t, if c1 == 0 then [] else [c1] + a, if c2 == 0 then [] else [c2] + b) ==
      var rc := CodepointOrder(t, c1, c2);
      if rc != 0 then rc
      else if c1 == 0 then 0
      else ListCmp(t, a, if c2 == 0 then [] else b)
  {
    var l1: seq<u32> := if c1 == 0 then [] else [c1] + a;
    var l2: seq<u32> := if c2 == 0 then [] else [c2] + b;
    if c1 != 0 {
      assert l1[0] == c1 && l1[1..] == a;
    }
    if c2 != 0 {
      assert l2[0] == c2 && l2[1..] == b;
    }
  }

  /** A non-zero bounded result is the unbounded result. */
  lemma {:induction false} StrnicmpAgrees(t: FoldTable, s1: seq<byte>, i1: nat, s2: seq<byte>, i2: nat, n: u32)
    ensures StrnicmpFrom(t, s1, i1, s2, i2, n) != 0 ==>
      StrnicmpFrom(t, s1, i1, s2, i2, n) == StricmpFrom(t, s1, i1, s2, i2)
    decreases n
  {
    if n > 0 {
      var d1, d2 := Decode(s1, i1), Decode(s2, i2);
      if CodepointOrder(t, d1.cp, d2.cp) == 0 && d1.cp != 0 {
        StrnicmpAgrees(t, s1, d1.next, s2, d2.next, n - 1);
      }
    }
  }
}
