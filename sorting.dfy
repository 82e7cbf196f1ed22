/**
 * The stable sort the ranking scripts rely on (Python's `list.sort`, pandas'
 * `sort_values`), as a functional insertion sort with its properties, and the
 * same sort carried out in place on an array.
 *
 * A sort is parameterised by `less`, "x must come before y"; for a descending
 * sort by a key this is "key(x) is greater than key(y)".
 */
module Sorting {

  /** Irreflexive, transitive, and incomparability is transitive (negative transitivity). */
  ghost predicate StrictWeakOrder<T(!new)>(less: (T, T) -> bool) {
    && (forall x :: !less(x, x))
    && (forall x, y, z :: less(x, y) && less(y, z) ==> less(x, z))
    && (forall x, y, z :: less(x, z) ==> less(x, y) || less(y, z))
  }

  /** Neither value has to come before the other: they tie. */
  predicate Tied<T>(x: T, y: T, less: (T, T) -> bool) {
    !less(x, y) && !less(y, x)
  }

  /** No element has to come before an element placed earlier. */
  ghost predicate SortedBy<T>(s: seq<T>, less: (T, T) -> bool) {
    forall i, j :: 0 <= i < j < |s| ==> !less(s[j], s[i])
  }

  /** The elements of `s` that tie with `y`, in their order in `s`. */
  function TiedWith<T>(s: seq<T>, y: T, less: (T, T) -> bool): seq<T> {
    if s == [] then []
    else TiedWith(s[..|s| - 1], y, less) + (if Tied(s[|s| - 1], y, less) then [s[|s| - 1]] else [])
  }

  /** Place `x` after every element of `s` it does not have to precede. */
  function Insert<T>(s: seq<T>, x: T, less: (T, T) -> bool): seq<T> {
    if s == [] || !less(x, s[|s| - 1]) then s + [x]
    else Insert(s[..|s| - 1], x, less) + [s[|s| - 1]]
  }

  /** Insert the elements of `s` one at a time, from the left. */
  function InsertionSort<T>(s: seq<T>, less: (T, T) -> bool): seq<T> {
    if s == [] then [] else Insert(InsertionSort(s[..|s| - 1], less), s[|s| - 1], less)
  }

  // ---- Insert ----

  lemma {:induction false} InsertPermutes<T>(s: seq<T>, x: T, less: (T, T) -> bool)
    ensures multiset(Insert(s, x, less)) == multiset(s) + multiset{x}
  {
    if s != [] && less(x, s[|s| - 1]) {
      var init, last := s[..|s| - 1], s[|s| - 1];
      InsertPermutes(init, x, less);
      assert s == init + [last];
    }
  }

  lemma {:induction false} InsertKeepsSorted<T(!new)>(s: seq<T>, x: T, less: (T, T) -> bool)
    requires StrictWeakOrder(less)
    requires SortedBy(s, less)
    ensures SortedBy(Insert(s, x, less), less)
  {
    if s == [] {
    } else if !less(x, s[|s| - 1]) {
      var r := s + [x];
      // x does not precede s[last], which does not precede any earlier element
      assert forall i :: 0 <= i < |s| ==> !less(s[|s| - 1], s[i]);
    } else {
      var init, last := s[..|s| - 1], s[|s| - 1];
      InsertKeepsSorted(init, x, less);
      InsertPermutes(init, x, less);
      var mid := Insert(init, x, less);
      var r := mid + [last];
      forall i, j | 0 <= i < j < |r| ensures !less(r[j], r[i]) {
        if j == |mid| {
          assert r[i] in multiset(init) + multiset{x} by {
            assert r[i] in mid;
          }
          if r[i] != x {
            assert r[i] in init;
            var k :| 0 <= k < |init| && init[k] == r[i];
            assert !less(s[|s| - 1], s[k]);
          } else {
            // last is preceded by x, and an order is asymmetric
            assert less(x, last);
          }
        }
      }
    }
  }

  lemma {:induction false} InsertTiedWith<T(!new)>(s: seq<T>, x: T, y: T, less: (T, T) -> bool)
    requires StrictWeakOrder(less)
    ensures TiedWith(Insert(s, x, less), y, less)
         == TiedWith(s, y, less) + (if Tied(x, y, less) then [x] else [])
  {
    if s == [] || !less(x, s[|s| - 1]) {
      assert (s + [x])[..|s|] == s;
    } else {
      var init, last := s[..|s| - 1], s[|s| - 1];
      var mid := Insert(init, x, less);
      InsertTiedWith(init, x, y, less);
      assert (mid + [last])[..|mid|] == mid;
      if Tied(x, y, less) {
        // x precedes last, so last cannot tie with y, which ties with x
        assert !Tied(last, y, less);
      }
    }
  }

  // ---- InsertionSort ----

  /** The output holds exactly the input's elements. */
  lemma {:induction false} SortPermutes<T>(s: seq<T>, less: (T, T) -> bool)
    ensures multiset(InsertionSort(s, less)) == multiset(s)
  {
    if s != [] {
      var init, last := s[..|s| - 1], s[|s| - 1];
      SortPermutes(init, less);
      InsertPermutes(InsertionSort(init, less), last, less);
      assert s == init + [last];
    }
  }

  /** The output is ordered. */
  lemma {:induction false} SortSorts<T(!new)>(s: seq<T>, less: (T, T) -> bool)
    requires StrictWeakOrder(less)
    ensures SortedBy(InsertionSort(s, less), less)
  {
    if s != [] {
      SortSorts(s[..|s| - 1], less);
      InsertKeepsSorted(InsertionSort(s[..|s| - 1], less), s[|s| - 1], less);
    }
  }

  /** The sort is stable: elements that tie keep their input order. */
  lemma {:induction false} SortIsStable<T(!new)>(s: seq<T>, y: T, less: (T, T) -> bool)
    requires StrictWeakOrder(less)
    ensures TiedWith(InsertionSort(s, less), y, less) == TiedWith(s, y, less)
  {
    if s != [] {
      SortIsStable(s[..|s| - 1], y, less);
      InsertTiedWith(InsertionSort(s[..|s| - 1], less), s[|s| - 1], y, less);
    }
  }

  lemma SortLength<T>(s: seq<T>, less: (T, T) -> bool)
    ensures |InsertionSort(s, less)| == |s|
  {
    SortPermutes(s, less);
    assert |multiset(InsertionSort(s, less))| == |multiset(s)|;
  }

  // ---- a field of every element ----

  /** `[f(x) for x in s]`, e.g. the model column of a list of result rows. */
  function Project<T, U>(s: seq<T>, f: T -> U): (r: seq<U>)
    ensures |r| == |s| && forall k :: 0 <= k < |s| ==> r[k] == f(s[k])
  {
    if s == [] then [] else Project(s[..|s| - 1], f) + [f(s[|s| - 1])]
  }

  lemma ProjectSnoc<T, U>(s: seq<T>, x: T, f: T -> U)
    ensures Project(s + [x], f) == Project(s, f) + [f(x)]
  {
    assert (s + [x])[..|s|] == s;
  }

  /** Inserting x adds f(x) to the projection, and takes nothing away. */
  lemma {:induction false} ProjectInsert<T, U>(s: seq<T>, x: T, less: (T, T) -> bool, f: T -> U)
    ensures multiset(Project(Insert(s, x, less), f)) == multiset(Project(s, f)) + multiset{f(x)}
  {
    if s == [] || !less(x, s[|s| - 1]) {
      ProjectSnoc(s, x, f);
    } else {
      var init, last := s[..|s| - 1], s[|s| - 1];
      ProjectInsert(init, x, less, f);
      ProjectSnoc(Insert(init, x, less), last, f);
    }
  }

  /** Sorting reorders the projection and does nothing more to it. */
  lemma {:induction false} ProjectSort<T, U>(s: seq<T>, less: (T, T) -> bool, f: T -> U)
    ensures multiset(Project(InsertionSort(s, less), f)) == multiset(Project(s, f))
  {
    if s != [] {
      var init, last := s[..|s| - 1], s[|s| - 1];
      ProjectSort(init, less, f);
      ProjectInsert(InsertionSort(init, less), last, less, f);
    }
  }

  /** Move a[i] left past the elements of the sorted a[..i] it has to precede. */
  method InsertInPlace<T>(a: array<T>, i: nat, less: (T, T) -> bool)
    requires i < a.Length
    modifies a
    ensures a[..i + 1] == Insert(old(a[..i]), old(a[i]), less)
    ensures a[i + 1..] == old(a[i + 1..])
  {
    var x := a[i];
    ghost var s := a[..i];
    var j := i;
    while j > 0 && less(x, a[j - 1])
      invariant 0 <= j <= i
      invariant a[..j] == s[..j]
      invariant a[j + 1..i + 1] == s[j..]
      invariant a[i + 1..] == old(a[i + 1..])
      invariant Insert(s, x, less) == Insert(s[..j], x, less) + s[j..]
    {
      InsertPassesLast(s, j, x, less);
      a[j] := a[j - 1];
      j := j - 1;
    }
    a[j] := x;
    assert a[..i + 1] == s[..j] + [x] + s[j..];
  }

  /** Inserting `x` into `s[..j]` moves it past `s[j - 1]` when it has to precede that element. */
  lemma InsertPassesLast<T>(s: seq<T>, j: nat, x: T, less: (T, T) -> bool)
    requires 0 < j <= |s| && less(x, s[j - 1])
    ensures Insert(s[..j], x, less) + s[j..] == Insert(s[..j - 1], x, less) + s[j - 1..]
  {
    assert s[..j][..j - 1] == s[..j - 1];
    assert s[j - 1..] == [s[j - 1]] + s[j..];
  }

  /** Sorting the array `a` in place leaves in it what InsertionSort computes. */
  method SortInPlace<T>(a: array<T>, less: (T, T) -> bool)
    modifies a
    ensures a[..] == InsertionSort(old(a[..]), less)
  {
    ghost var input := a[..];
    var i := 0;
    while i < a.Length
      invariant 0 <= i <= a.Length
      invariant a[..i] == InsertionSort(input[..i], less)
      invariant a[i..] == input[i..]
    {
      assert a[i] == input[i] && a[i + 1..] == input[i + 1..];
      InsertInPlace(a, i, less);
      assert input[..i + 1][..i] == input[..i];
      i := i + 1;
    }
    assert input[..a.Length] == input;
  }
}
