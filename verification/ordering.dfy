/**
  Sorting a sequence by a comparator-derived "must come before" relation, for any
  element type. `prec(a, b)` holds when the comparator returns a negative number
  for `(a, b)`. The algorithm is insertion sort; the relation is only required to
  be a strict weak order, which is what `Array.prototype.sort` assumes of a
  consistent comparator.
*/
module Ordering {

  /** `prec` is asymmetric and its complement ("may come after or tie") is transitive. */
  ghost predicate StrictWeakOrder<T(!new)>(prec: (T, T) -> bool) {
    && (forall a, b :: prec(a, b) ==> !prec(b, a))
    && (forall a, b, c :: !prec(a, b) && !prec(b, c) ==> !prec(a, c))
  }

  /** No element is placed after one it must precede. */
  predicate SortedBy<T>(s: seq<T>, prec: (T, T) -> bool) {
    forall i, j :: 0 <= i < j < |s| ==> !prec(s[j], s[i])
  }

  /** Any two elements of `s` are ordered one way or the other (no ties). */
  predicate Comparable<T>(s: seq<T>, prec: (T, T) -> bool) {
    forall i, j :: 0 <= i < j < |s| ==> prec(s[i], s[j]) || prec(s[j], s[i])
  }

  /** Inserts `x` in front of the first element it does not follow. */
  function Insert<T(!new)>(x: T, s: seq<T>, prec: (T, T) -> bool): (r: seq<T>)
    requires StrictWeakOrder(prec)
    requires SortedBy(s, prec)
    ensures multiset(r) == multiset(s) + multiset{x}
    ensures SortedBy(r, prec)
  {
    if |s| == 0 then [x]
    else if prec(s[0], x) then
      var rest := Insert(x, s[1..], prec);
      var r := [s[0]] + rest;
      assert s == [s[0]] + s[1..];
      forall j | 1 <= j < |r|
        ensures !prec(r[j], s[0])
      {
        assert r[j] in multiset(rest);
        if r[j] != x {
          assert r[j] in multiset(s[1..]);
          var m :| 0 <= m < |s[1..]| && s[1..][m] == r[j];
          assert s[m + 1] == r[j];
        }
      }
      r
    else
      var r := [x] + s;
      assert forall j :: 1 <= j < |r| ==> !prec(r[j], s[0]) && r[j] == s[j - 1];
      r
  }

  /** Insertion sort: a sorted permutation of `s`. */
  function InsertionSort<T(!new)>(s: seq<T>, prec: (T, T) -> bool): (r: seq<T>)
    requires StrictWeakOrder(prec)
    ensures multiset(r) == multiset(s)
    ensures SortedBy(r, prec)
  {
    if |s| == 0 then []
    else
      assert s == [s[0]] + s[1..];
      Insert(s[0], InsertionSort(s[1..], prec), prec)
  }

  /**
    Without ties there is exactly one sorted permutation, so every correct sorting
    algorithm, stable or not, returns the same sequence.
  */
  lemma {:induction false} SortedPermutationUnique<T(!new)>(a: seq<T>, b: seq<T>, prec: (T, T) -> bool)
    requires StrictWeakOrder(prec)
    requires multiset(a) == multiset(b)
    requires SortedBy(a, prec) && SortedBy(b, prec)
    requires Comparable(a, prec)
    ensures a == b
    decreases |a|
  {
    if |a| > 0 {
      assert |a| == |multiset(a)| == |multiset(b)| == |b|;
      SameFirst(a, b, prec);
      TailPermutation(a, b);
      assert Comparable(a[1..], prec) by {
        assert forall i, j :: 0 <= i < j < |a| - 1 ==> a[1..][i] == a[i + 1] && a[1..][j] == a[j + 1];
      }
      SortedPermutationUnique(a[1..], b[1..], prec);
      assert a == [a[0]] + a[1..] && b == [b[0]] + b[1..];
    }
  }

  /** Two sorted permutations without ties start with the same element. */
  lemma SameFirst<T(!new)>(a: seq<T>, b: seq<T>, prec: (T, T) -> bool)
    requires StrictWeakOrder(prec)
    requires multiset(a) == multiset(b) && |a| > 0 && |b| > 0
    requires SortedBy(a, prec) && SortedBy(b, prec)
    requires Comparable(a, prec)
    ensures a[0] == b[0]
  {
    assert a[0] in multiset(b);
    var m :| 0 <= m < |b| && b[m] == a[0];
    assert b[0] in multiset(a);
    var n :| 0 <= n < |a| && a[n] == b[0];
    assert !prec(a[n], a[0]) && !prec(b[m], b[0]);
  }

  /** Removing the same first element from two permutations leaves permutations. */
  lemma TailPermutation<T>(a: seq<T>, b: seq<T>)
    requires multiset(a) == multiset(b) && |a| > 0 && |b| > 0 && a[0] == b[0]
    ensures multiset(a[1..]) == multiset(b[1..])
  {
    assert a == [a[0]] + a[1..] && b == [b[0]] + b[1..];
    assert multiset(a[1..]) == multiset(a) - multiset{a[0]};
    assert multiset(b[1..]) == multiset(b) - multiset{b[0]};
  }

  /** No element occurs twice. */
  predicate NoDuplicates<T(==)>(s: seq<T>) {
    forall i, j :: 0 <= i < j < |s| ==> s[i] != s[j]
  }

  lemma {:induction false} NoDuplicatesCount<T>(s: seq<T>, x: T)
    requires NoDuplicates(s)
    ensures multiset(s)[x] <= 1
    decreases |s|
  {
    if |s| > 0 {
      assert s == [s[0]] + s[1..];
      assert NoDuplicates(s[1..]) by {
        assert forall i, j :: 0 <= i < j < |s| - 1 ==> s[1..][i] == s[i + 1] && s[1..][j] == s[j + 1];
      }
      NoDuplicatesCount(s[1..], x);
      if s[0] == x {
        assert x !in s[1..];
      }
    }
  }

  lemma CountTwo<T>(s: seq<T>, i: int, j: int)
    requires 0 <= i < j < |s| && s[i] == s[j]
    ensures multiset(s)[s[i]] >= 2
  {
    assert s == s[..j] + s[j..];
    assert s[..j][i] == s[i] && s[j..][0] == s[j];
    assert multiset(s) == multiset(s[..j]) + multiset(s[j..]);
  }

  /**
    A symmetric relation that holds between every two positions of `a` and never
    between an element and itself holds between every two positions of any
    permutation of `a`.
  */
  lemma PairwisePermutation<T(!new)>(a: seq<T>, b: seq<T>, related: (T, T) -> bool)
    requires multiset(a) == multiset(b)
    requires forall x, y :: related(x, y) == related(y, x)
    requires forall x :: !related(x, x)
    requires forall i, j :: 0 <= i < j < |a| ==> related(a[i], a[j])
    ensures forall i, j :: 0 <= i < j < |b| ==> related(b[i], b[j])
  {
    forall i, j | 0 <= i < j < |b|
      ensures related(b[i], b[j])
    {
      assert b[i] in multiset(a) && b[j] in multiset(a);
      var p :| 0 <= p < |a| && a[p] == b[i];
      var q :| 0 <= q < |a| && a[q] == b[j];
      assert p < q || q < p || b[i] == b[j];
      if b[i] == b[j] {
        CountTwo(b, i, j);
        NoDuplicatesCount(a, b[i]);
        assert false;
      }
    }
  }
}
