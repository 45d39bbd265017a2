/**
 * Lexicographic comparison of key tuples, the meaning of
 * `const_tie(l0, l1, ...) < const_tie(r0, r1, ...)` (std::tuple's operator<).
 * A tuple is modelled as a sequence of integers: every component the
 * comparators tie together (a bool, an enumeration value, an unsigned id,
 * a version, a timestamp) is encoded as an integer whose order is that
 * component's own order.
 */
module Tuples {

  /** std::tuple's operator<: `l0 < r0 || (!(r0 < l0) && tail(l) < tail(r))`. */
  predicate LexLess(a: seq<int>, b: seq<int>)
    requires |a| == |b|
    decreases |a|
  {
    |a| > 0 && (a[0] < b[0] || (!(b[0] < a[0]) && LexLess(a[1..], b[1..])))
  }

  /** Lexicographic "not greater": what a sort leaves between earlier and later elements. */
  predicate LexNotGreater(a: seq<int>, b: seq<int>)
    requires |a| == |b|
  {
    !LexLess(b, a)
  }

  /** One-component tuples compare as their components. */
  lemma LexLessSingle(x: int, y: int)
    ensures LexLess([x], [y]) == (x < y)
  {
  }

  /** Two-component tuples: the first components decide unless they are equal. */
  lemma LexLessPair(x0: int, x1: int, y0: int, y1: int)
    ensures LexLess([x0, x1], [y0, y1]) == (x0 < y0 || (x0 == y0 && x1 < y1))
  {
    assert [x0, x1][1..] == [x1] && [y0, y1][1..] == [y1];
    LexLessSingle(x1, y1);
  }

  lemma {:induction false} LexLessIrreflexive(a: seq<int>)
    ensures !LexLess(a, a)
    decreases |a|
  {
    if |a| > 0 {
      LexLessIrreflexive(a[1..]);
    }
  }

  lemma {:induction false} LexLessAsymmetric(a: seq<int>, b: seq<int>)
    requires |a| == |b|
    ensures LexLess(a, b) ==> !LexLess(b, a)
    decreases |a|
  {
    if |a| > 0 && a[0] == b[0] {
      LexLessAsymmetric(a[1..], b[1..]);
    }
  }

  lemma {:induction false} LexLessTransitive(a: seq<int>, b: seq<int>, c: seq<int>)
    requires |a| == |b| == |c|
    requires LexLess(a, b) && LexLess(b, c)
    ensures LexLess(a, c)
    decreases |a|
  {
    if a[0] == b[0] == c[0] {
      LexLessTransitive(a[1..], b[1..], c[1..]);
    }
  }

  /** Distinct tuples are always ordered one way or the other. */
  lemma {:induction false} LexLessConnected(a: seq<int>, b: seq<int>)
    requires |a| == |b|
    ensures a != b ==> LexLess(a, b) || LexLess(b, a)
    decreases |a|
  {
    if |a| > 0 && a[0] == b[0] {
      assert a == [a[0]] + a[1..] && b == [b[0]] + b[1..];
      LexLessConnected(a[1..], b[1..]);
    }
  }

  /** "Not greater" is transitive (the order is a strict total order on tuples). */
  lemma LexNotGreaterTransitive(a: seq<int>, b: seq<int>, c: seq<int>)
    requires |a| == |b| == |c|
    requires LexNotGreater(a, b) && LexNotGreater(b, c)
    ensures LexNotGreater(a, c)
  {
    if LexLess(c, a) {
      LexLessConnected(b, c);
      if LexLess(b, c) {
        LexLessTransitive(b, c, a);
      }
    }
  }

  /** Two tuples that are each "not greater" than the other are equal. */
  lemma LexNotGreaterAntisymmetric(a: seq<int>, b: seq<int>)
    requires |a| == |b|
    requires LexNotGreater(a, b) && LexNotGreater(b, a)
    ensures a == b
  {
    LexLessConnected(a, b);
  }

  /**
   * Comparing a tuple built from a prefix and a suffix: the prefixes decide,
   * and only when they are equal do the suffixes.
   */
  lemma {:induction false} LexLessConcat(a: seq<int>, b: seq<int>, x: seq<int>, y: seq<int>)
    requires |a| == |b| && |x| == |y|
    ensures LexLess(a + x, b + y) == (LexLess(a, b) || (a == b && LexLess(x, y)))
    decreases |a|
  {
    if |a| == 0 {
      assert a + x == x && b + y == y;
    } else {
      assert (a + x)[1..] == a[1..] + x;
      assert (b + y)[1..] == b[1..] + y;
      LexLessConcat(a[1..], b[1..], x, y);
      if a[0] == b[0] {
        assert a == [a[0]] + a[1..] && b == [b[0]] + b[1..];
      }
    }
  }

  /**
   * The reference definition of lexicographic order: the tuples agree up to
   * some position k, and at k the left component is the smaller.
   */
  lemma {:induction false} LexLessFirstDifference(a: seq<int>, b: seq<int>)
    requires |a| == |b|
    ensures LexLess(a, b) <==> exists k :: 0 <= k < |a| && a[..k] == b[..k] && a[k] < b[k]
    decreases |a|
  {
    if |a| > 0 {
      LexLessFirstDifference(a[1..], b[1..]);
      if LexLess(a, b) {
        if a[0] < b[0] {
          assert a[..0] == b[..0];
        } else {
          var k :| 0 <= k < |a| - 1 && a[1..][..k] == b[1..][..k] && a[1..][k] < b[1..][k];
          assert a[..k + 1] == [a[0]] + a[1..][..k];
          assert b[..k + 1] == [b[0]] + b[1..][..k];
          assert a[k + 1] < b[k + 1];
        }
      } else {
        forall k | 0 <= k < |a| && a[..k] == b[..k]
          ensures !(a[k] < b[k])
        {
          if k > 0 {
            assert a[0] == a[..k][0] == b[..k][0] == b[0];
            assert a[1..][..k - 1] == a[..k][1..];
            assert b[1..][..k - 1] == b[..k][1..];
            assert a[1..][k - 1] == a[k] && b[1..][k - 1] == b[k];
          }
        }
      }
    }
  }
}
