/**
 * Case folding: `locate_case_fold_mapping`, which looks a codepoint up in a
 * constant 256-bucket hash table, and `utf8codepointcmp`, which compares two
 * codepoints by their folded forms.
 *
 * The table itself is generated data that is not part of this model; it is a
 * parameter of type `FoldTable`, and the properties that need more than its
 * shape assume `WellFormedTable`. `SampleTable` is a small concrete instance.
 */
module CaseFold {
  import opened Scalars
  import opened Lexicographic

  /** One table entry: `from` folds to `to0`, then `to1` and `to2` where those are not 0. */
  datatype FoldMapping = FoldMapping(from: u32, to0: u32, to1: u32, to2: u32)

  /** The folded form of one codepoint: one to three values, unused ones 0. */
  datatype Folded = Folded(f0: u32, f1: u32, f2: u32)

  /** The table: 256 buckets of entries, selected by `Hash`. */
  type FoldTable = t: seq<seq<FoldMapping>> | |t| == 256 witness seq(256, _ => [])

  function Pow2(k: nat): (p: nat)
    ensures p > 0
  {
    if k == 0 then 1 else 2 * Pow2(k - 1)
  }

  /** The low `bits` bits of the bitwise exclusive-or of `a` and `b`, one bit at a time. */
  function Xor(a: nat, b: nat, bits: nat): nat {
    if bits == 0 then 0
    else (if a % 2 == b % 2 then 0 else 1) + 2 * Xor(a / 2, b / 2, bits - 1)
  }

  /** The exclusive-or of `bits` bits fits in `bits` bits. */
  lemma {:induction false} XorBound(a: nat, b: nat, bits: nat)
    ensures Xor(a, b, bits) < Pow2(bits)
  {
    if bits > 0 {
      XorBound(a / 2, b / 2, bits - 1);
    }
  }

  /** The bucket index `(c ^ (c >> 8)) & 0xFF`: the low 8 bits of `c` exclusive-or `c` shifted right by 8. */
  function Hash(c: u32): (h: nat)
    ensures h < 256
  {
    XorBound(c, c / 0x100, 8);
    assert Pow2(8) == 256;
    Xor(c, c / 0x100, 8)
  }

  /**
   * What the generator guarantees: every entry sits in the bucket of its
   * `from`, folds a non-zero value to a non-zero first value, and a bucket
   * holds fewer than 256 entries (its count is one byte).
   */
  ghost predicate WellFormedTable(t: FoldTable) {
    forall h, k | 0 <= h < 256 && 0 <= k < |t[h]| ::
      Hash(t[h][k].from) == h && t[h][k].from != 0 && t[h][k].to0 != 0 && |t[h]| < 256
  }

  /** The folded form given by the first entry at or after `k` whose `from` is `c`, else `c` itself. */
  function FindMapping(bucket: seq<FoldMapping>, c: u32, k: nat): (r: Folded)
    ensures r == Folded(c, 0, 0) || exists m | k <= m < |bucket| ::
      bucket[m].from == c && r == Folded(bucket[m].to0, bucket[m].to1, bucket[m].to2)
    decreases |bucket| - k
  {
    if k >= |bucket| then Folded(c, 0, 0)
    else if bucket[k].from == c then Folded(bucket[k].to0, bucket[k].to1, bucket[k].to2)
    else FindMapping(bucket, c, k + 1)
  }

  /** The folded form of `c` in table `t`. */
  function FoldOf(t: FoldTable, c: u32): (r: Folded)
    // `c` itself, or the triple of an entry for `c` in its bucket
    ensures r == Folded(c, 0, 0) || exists m | 0 <= m < |t[Hash(c)]| ::
      t[Hash(c)][m].from == c && r == Folded(t[Hash(c)][m].to0, t[Hash(c)][m].to1, t[Hash(c)][m].to2)
  {
    FindMapping(t[Hash(c)], c, 0)
  }

  /**
   * `locate_case_fold_mapping`: scans the bucket of `from`; the first entry
   * for `from` gives the folded form, and without one `from` folds to itself.
   * The C function fills the caller's array `to[3]`; here the triple is
   * returned.
   */
  method LocateCaseFoldMapping(t: FoldTable, from: u32) returns (to: Folded)
    ensures to == FoldOf(t, from)
  {
    var bucket := t[Hash(from)];
    var i := 0;
    while i < |bucket|
      invariant 0 <= i <= |bucket|
      invariant FindMapping(bucket, from, i) == FoldOf(t, from)
    {
      if bucket[i].from == from {
        return Folded(bucket[i].to0, bucket[i].to1, bucket[i].to2);
      }
      i := i + 1;
    }
    return Folded(from, 0, 0);
  }

  /** The first entry for `c` in its bucket decides; no entry means `c` folds to itself. */
  lemma {:induction false} FindMappingFirst(bucket: seq<FoldMapping>, c: u32, k: nat)
    ensures forall m | k <= m < |bucket| ::
      bucket[m].from == c && (forall p | k <= p < m :: bucket[p].from != c) ==>
        FindMapping(bucket, c, k) == Folded(bucket[m].to0, bucket[m].to1, bucket[m].to2)
    ensures (forall m | k <= m < |bucket| :: bucket[m].from != c) ==>
      FindMapping(bucket, c, k) == Folded(c, 0, 0)
    decreases |bucket| - k
  {
    if k < |bucket| {
      FindMappingFirst(bucket, c, k + 1);
    }
  }

  /**
   * The lookup: the triple of the first entry in `c`'s bucket whose `from`
   * is `c`, and `(c, 0, 0)` when there is none.
   */
  lemma FoldOfLookup(t: FoldTable, c: u32)
    ensures var b := t[Hash(c)];
      forall m | 0 <= m < |b| ::
        b[m].from == c && (forall p | 0 <= p < m :: b[p].from != c) ==>
          FoldOf(t, c) == Folded(b[m].to0, b[m].to1, b[m].to2)
    ensures (forall m | 0 <= m < |t[Hash(c)]| :: t[Hash(c)][m].from != c) ==>
      FoldOf(t, c) == Folded(c, 0, 0)
  {
    FindMappingFirst(t[Hash(c)], c, 0);
  }

  /** In a well-formed table 0 folds to (0, 0, 0), and nothing else has 0 first. */
  lemma FoldOfWellFormed(t: FoldTable, c: u32)
    requires WellFormedTable(t)
    ensures c == 0 ==> FoldOf(t, c) == Folded(0, 0, 0)
    ensures c != 0 ==> FoldOf(t, c).f0 != 0
  {
    FoldOfNonZero(t[Hash(c)], c, 0);
  }

  lemma {:induction false} FoldOfNonZero(bucket: seq<FoldMapping>, c: u32, k: nat)
    requires forall m | 0 <= m < |bucket| :: bucket[m].from != 0 && bucket[m].to0 != 0
    ensures c == 0 ==> FindMapping(bucket, c, k) == Folded(0, 0, 0)
    ensures c != 0 ==> FindMapping(bucket, c, k).f0 != 0
    decreases |bucket| - k
  {
    if k < |bucket| {
      FoldOfNonZero(bucket, c, k + 1);
    }
  }

  /** The three values of a folded form, in order. */
  function Values(f: Folded): (v: seq<int>)
    ensures |v| == 3
  {
    [f.f0, f.f1, f.f2]
  }

  /**
   * The result of `utf8codepointcmp`: 0 for the same codepoint (so two
   * sentinels match), otherwise the lexicographic order of the folded forms.
   */
  function CodepointOrder(t: FoldTable, cp1: u32, cp2: u32): (r: int)
    ensures -1 <= r <= 1
    ensures r == 0 <==> cp1 == cp2 || FoldOf(t, cp1) == FoldOf(t, cp2)
  {
    if cp1 == cp2 then 0 else LexCompare(Values(FoldOf(t, cp1)), Values(FoldOf(t, cp2)))
  }

  /** `utf8codepointcmp`: folds both codepoints and compares the triples value by value. */
  method CodepointCmp(t: FoldTable, cp1: u32, cp2: u32) returns (r: int)
    ensures r == CodepointOrder(t, cp1, cp2)
  {
    if cp1 == cp2 {
      return 0;
    }
    var folded1 := LocateCaseFoldMapping(t, cp1);
    var folded2 := LocateCaseFoldMapping(t, cp2);
    if folded1.f0 < folded2.f0 {
      r := -1;
    } else if folded1.f0 > folded2.f0 {
      r := 1;
    } else if folded1.f1 < folded2.f1 {
      r := -1;
    } else if folded1.f1 > folded2.f1 {
      r := 1;
    } else if folded1.f2 < folded2.f2 {
      r := -1;
    } else if folded1.f2 > folded2.f2 {
      r := 1;
    } else {
      r := 0;
    }
    ValuesOrder(folded1, folded2);
  }

  /** Unfolds the lexicographic order of two triples into the comparisons of `utf8codepointcmp`. */
  lemma ValuesOrder(f: Folded, g: Folded)
    ensures LexCompare(Values(f), Values(g)) ==
      if f.f0 != g.f0 then (if f.f0 < g.f0 then -1 else 1)
      else if f.f1 != g.f1 then (if f.f1 < g.f1 then -1 else 1)
      else if f.f2 != g.f2 then (if f.f2 < g.f2 then -1 else 1)
      else 0
  {
    var a, b := Values(f), Values(g);
    assert a[1..] == [f.f1, f.f2] && b[1..] == [g.f1, g.f2];
    assert [f.f1, f.f2][1..] == [f.f2] && [g.f1, g.f2][1..] == [g.f2];
    assert [f.f2][1..] == [] && [g.f2][1..] == [];
    assert LexCompare([f.f2], [g.f2]) == if f.f2 < g.f2 then -1 else if f.f2 > g.f2 then 1 else 0;
    assert LexCompare([f.f1, f.f2], [g.f1, g.f2]) ==
      if f.f1 < g.f1 then -1 else if f.f1 > g.f1 then 1 else LexCompare([f.f2], [g.f2]);
    assert LexCompare(a, b) ==
      if f.f0 < g.f0 then -1 else if f.f0 > g.f0 then 1 else LexCompare([f.f1, f.f2], [g.f1, g.f2]);
  }

  /** Swapping the codepoints negates the result. */
  lemma CodepointOrderAntisymmetric(t: FoldTable, cp1: u32, cp2: u32)
    ensures CodepointOrder(t, cp1, cp2) == -CodepointOrder(t, cp2, cp1)
  {
    LexAntisymmetric(Values(FoldOf(t, cp1)), Values(FoldOf(t, cp2)));
  }

  /** In a well-formed table the terminator sorts before every other codepoint. */
  lemma TerminatorSortsFirst(t: FoldTable, c: u32)
    requires WellFormedTable(t) && c != 0
    ensures CodepointOrder(t, 0, c) == -1 && CodepointOrder(t, c, 0) == 1
  {
    FoldOfWellFormed(t, 0);
    FoldOfWellFormed(t, c);
  }

  /** A small table: 'A' folds to 'a', and the sharp s U+00DF folds to "ss". */
  const SampleTable: FoldTable :=
    seq(256, h requires 0 <= h < 256 =>
      if h == 0x41 then [FoldMapping(0x41, 0x61, 0, 0)]
      else if h == 0xDF then [FoldMapping(0xDF, 0x73, 0x73, 0)]
      else [])

  lemma SampleTableWellFormed()
    ensures WellFormedTable(SampleTable)
  {
    HashOfByte(0x41);
    HashOfByte(0xDF);
  }

  /** Exclusive-or with 0 of a value that fits in `bits` bits is that value. */
  lemma {:induction false} XorZero(a: nat, bits: nat)
    requires a < Pow2(bits)
    ensures Xor(a, 0, bits) == a
  {
    if bits > 0 {
      XorZero(a / 2, bits - 1);
    }
  }

  /** A codepoint below 0x100 is its own bucket. */
  lemma HashOfByte(c: u32)
    requires c < 0x100
    ensures Hash(c) == c
  {
    assert Pow2(8) == 256 && c / 0x100 == 0;
    XorZero(c, 8);
  }

  /** With the sample table 'A' and 'a' match, and U+00DF sorts after 's'. */
  lemma SampleTableOrder()
    ensures CodepointOrder(SampleTable, 0x41, 0x61) == 0
    ensures FoldOf(SampleTable, 0xDF) == Folded(0x73, 0x73, 0)
    ensures CodepointOrder(SampleTable, 0xDF, 0x73) == 1
  {
    SampleFolds();
    ValuesOrder(Folded(0x73, 0x73, 0), Folded(0x73, 0, 0));
  }

  /** The folded forms of the four sample codepoints. */
  lemma SampleFolds()
    ensures FoldOf(SampleTable, 0x41) == Folded(0x61, 0, 0)
    ensures FoldOf(SampleTable, 0x61) == Folded(0x61, 0, 0)
    ensures FoldOf(SampleTable, 0xDF) == Folded(0x73, 0x73, 0)
    ensures FoldOf(SampleTable, 0x73) == Folded(0x73, 0, 0)
  {
    HashOfByte(0x41);
    HashOfByte(0x61);
    HashOfByte(0xDF);
    HashOfByte(0x73);
  }
}
