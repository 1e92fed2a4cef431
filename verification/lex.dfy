/**
 * Lexicographic order on sequences of integers, a proper prefix sorting
 * first. It is the reference the string comparators are measured against.
 */
module Lexicographic {

  /** -1, 0 or 1 as `a` sorts before, equal to or after `b`. */
  function LexCompare(a: seq<int>, b: seq<int>): (r: int)
    ensures -1 <= r <= 1
    ensures r == 0 <==> a == b
  {
    if a == [] && b == [] then 0
    else if a == [] then -1
    else if b == [] then 1
    else if a[0] < b[0] then -1
    else if a[0] > b[0] then 1
    else
      assert a == [a[0]] + a[1..] && b == [b[0]] + b[1..];
      LexCompare(a[1..], b[1..])
  }

  /** Swapping the operands negates the result. */
  lemma {:induction false} LexAntisymmetric(a: seq<int>, b: seq<int>)
    ensures LexCompare(a, b) == -LexCompare(b, a)
  {
    if a != [] && b != [] && a[0] == b[0] {
      LexAntisymmetric(a[1..], b[1..]);
    }
  }

  /** A common prefix does not change the order. */
  lemma {:induction false} LexCommonPrefix(p: seq<int>, a: seq<int>, b: seq<int>)
    ensures LexCompare(p + a, p + b) == LexCompare(a, b)
  {
    if p != [] {
      assert (p + a)[0] == p[0] == (p + b)[0];
      assert (p + a)[1..] == p[1..] + a;
      assert (p + b)[1..] == p[1..] + b;
      LexCommonPrefix(p[1..], a, b);
    } else {
      assert p + a == a && p + b == b;
    }
  }

  /**
   * Two sequences that start with blocks of the same length compare as those
   * blocks when the blocks differ.
   */
  lemma {:induction false} LexBlocksDiffer(x: seq<int>, a: seq<int>, y: seq<int>, b: seq<int>)
    requires |x| == |y| && x != y
    ensures LexCompare(x + a, y + b) == LexCompare(x, y)
  {
    assert x != [] && y != [];
    assert (x + a)[0] == x[0] && (y + b)[0] == y[0];
    if x[0] == y[0] {
      assert (x + a)[1..] == x[1..] + a;
      assert (y + b)[1..] == y[1..] + b;
      assert x[1..] != y[1..] by {
        assert x == [x[0]] + x[1..] && y == [y[0]] + y[1..];
      }
      LexBlocksDiffer(x[1..], a, y[1..], b);
    }
  }
}
