/**
 * The orders the ranking scripts sort by: Python's `<` on strings (lexicographic
 * by code point) and Python's `<` on tuples of numbers, both instances of one
 * lexicographic order on sequences.
 */
module Ordering {
  import opened Basics

  /** `less` is irreflexive, transitive and relates any two distinct values. */
  ghost predicate StrictTotalOrder<T(!new)>(less: (T, T) -> bool) {
    && (forall x :: !less(x, x))
    && (forall x, y, z :: less(x, y) && less(y, z) ==> less(x, z))
    && (forall x, y :: x == y || less(x, y) || less(y, x))
  }

  /** Lexicographic extension of `less`: the first differing element decides, a proper prefix comes first. */
  predicate LexLess<T(==)>(a: seq<T>, b: seq<T>, less: (T, T) -> bool) {
    if |a| == 0 then |b| > 0
    else if |b| == 0 then false
    else less(a[0], b[0]) || (a[0] == b[0] && LexLess(a[1..], b[1..], less))
  }

  lemma {:induction false} LexLessIrreflexive<T(!new)>(a: seq<T>, less: (T, T) -> bool)
    requires forall x :: !less(x, x)
    ensures !LexLess(a, a, less)
  {
    if |a| > 0 {
      LexLessIrreflexive(a[1..], less);
    }
  }

  lemma {:induction false} LexLessTransitive<T(!new)>(a: seq<T>, b: seq<T>, c: seq<T>, less: (T, T) -> bool)
    requires StrictTotalOrder(less)
    requires LexLess(a, b, less) && LexLess(b, c, less)
    ensures LexLess(a, c, less)
  {
    if |a| > 0 && |b| > 0 && |c| > 0 && a[0] == b[0] == c[0] {
      LexLessTransitive(a[1..], b[1..], c[1..], less);
    }
  }

  lemma {:induction false} LexLessTotal<T(!new)>(a: seq<T>, b: seq<T>, less: (T, T) -> bool)
    requires StrictTotalOrder(less)
    ensures a == b || LexLess(a, b, less) || LexLess(b, a, less)
  {
    if |a| > 0 && |b| > 0 && a[0] == b[0] {
      LexLessTotal(a[1..], b[1..], less);
      if a[1..] == b[1..] {
        assert a == [a[0]] + a[1..] && b == [b[0]] + b[1..];
      }
    }
  }

  /** The lexicographic extension of a strict total order is one. */
  lemma LexIsStrictTotalOrder<T(!new)>(less: (T, T) -> bool)
    requires StrictTotalOrder(less)
    ensures forall a :: !LexLess(a, a, less)
    ensures forall a, b, c :: LexLess(a, b, less) && LexLess(b, c, less) ==> LexLess(a, c, less)
    ensures forall a, b :: a == b || LexLess(a, b, less) || LexLess(b, a, less)
  {
    forall a: seq<T> ensures !LexLess(a, a, less) { LexLessIrreflexive(a, less); }
    forall a: seq<T>, b: seq<T>, c: seq<T> | LexLess(a, b, less) && LexLess(b, c, less)
      ensures LexLess(a, c, less)
    {
      LexLessTransitive(a, b, c, less);
    }
    forall a: seq<T>, b: seq<T> ensures a == b || LexLess(a, b, less) || LexLess(b, a, less) {
      LexLessTotal(a, b, less);
    }
  }

  // ---- strings ----

  predicate CharLess(x: char, y: char) {
    x < y
  }

  /** Python's `a < b` on str. */
  predicate StrLess(a: string, b: string) {
    LexLess(a, b, CharLess)
  }

  lemma StrLessIsStrictTotalOrder()
    ensures StrictTotalOrder(StrLess)
  {
    assert StrictTotalOrder(CharLess);
    LexIsStrictTotalOrder(CharLess);
  }

  // ---- numbers that may be missing ----

  /** Python's `x > y` on floats, where a comparison involving NaN is false. */
  predicate Greater(x: Option<real>, y: Option<real>) {
    x.Some? && y.Some? && x.value > y.value
  }

  /**
   * The order the model sorts possibly missing numbers by: a missing value is
   * below every number (Python's own comparison with NaN is not an order).
   */
  predicate OptLess(x: Option<real>, y: Option<real>) {
    match (x, y)
    case (None, Some(_)) => true
    case (Some(u), Some(v)) => u < v
    case _ => false
  }

  lemma OptLessIsStrictTotalOrder()
    ensures StrictTotalOrder(OptLess)
  {
  }

  /** A sort key: Python's tuple of numbers, compared lexicographically. */
  type Key = seq<Option<real>>

  predicate KeyLess(a: Key, b: Key) {
    LexLess(a, b, OptLess)
  }

  lemma KeyLessIsStrictTotalOrder()
    ensures StrictTotalOrder(KeyLess)
  {
    OptLessIsStrictTotalOrder();
    LexIsStrictTotalOrder(OptLess);
  }

  /** Two keys that start with different numbers are ordered by those numbers. */
  lemma KeyLessHead(a: Key, b: Key)
    requires |a| > 0 && |b| > 0 && a[0] != b[0]
    ensures KeyLess(a, b) <==> OptLess(a[0], b[0])
  {
  }
}
