/**
  Column sorting: the direction toggle of `handleSort` and the comparator it hands
  to `Array.prototype.sort`. The engine's sort algorithm is not visible, so the
  reordering is modelled by an insertion sort; `SortIsTheOnlyOrder` shows that when
  the column's values are distinct every correct sort gives this same list.
*/
module Sorting {

  import opened Wrappers
  import opened Text
  import opened Records
  import opened Ordering

  /** The sortable columns; the table offers headers for `name` and `email` only. */
  datatype SortKey = Name | Email

  datatype Direction = Ascending | Descending

  datatype SortConfig = SortConfig(key: SortKey, direction: Direction)

  function KeyOf(u: User, key: SortKey): string {
    match key
    case Name => u.name
    case Email => u.email
  }

  /**
    Clicking a header sorts descending exactly when the same column is currently
    sorted ascending; every other click sorts ascending.
  */
  function NextDirection(config: Option<SortConfig>, key: SortKey): (d: Direction)
    ensures d == Descending <==> config == Some(SortConfig(key, Ascending))
  {
    if config.Some? && config.value.key == key && config.value.direction == Ascending then Descending
    else Ascending
  }

  /**
    The comparator of `handleSort`: negative puts `a` first, positive puts `b` first.
    It is negative exactly when `a`'s column value comes first in the direction.
  */
  function Compare(a: User, b: User, key: SortKey, dir: Direction): (c: int)
    ensures c == -1 || c == 0 || c == 1
    ensures c < 0 <==> if dir == Ascending then Less(KeyOf(a, key), KeyOf(b, key)) else Less(KeyOf(b, key), KeyOf(a, key))
  {
    LessAsymmetric(KeyOf(a, key), KeyOf(b, key));
    if Less(KeyOf(a, key), KeyOf(b, key)) then (if dir == Ascending then -1 else 1)
    else if Less(KeyOf(b, key), KeyOf(a, key)) then (if dir == Ascending then 1 else -1)
    else 0
  }

  /** The comparator is consistent: swapping its arguments negates its answer. */
  lemma CompareAntisymmetric(a: User, b: User, key: SortKey, dir: Direction)
    ensures Compare(a, b, key, dir) == -Compare(b, a, key, dir)
  {
    LessAsymmetric(KeyOf(a, key), KeyOf(b, key));
  }

  /** The comparator reports a tie exactly when the two column values are equal. */
  lemma CompareZeroIffSameKey(a: User, b: User, key: SortKey, dir: Direction)
    ensures Compare(a, b, key, dir) == 0 <==> KeyOf(a, key) == KeyOf(b, key)
  {
    LessTotal(KeyOf(a, key), KeyOf(b, key));
    LessIrreflexive(KeyOf(a, key));
  }

  /** `a` must come before `b`: the comparator returns a negative number. */
  function Before(key: SortKey, dir: Direction): (User, User) -> bool {
    (a: User, b: User) => Compare(a, b, key, dir) < 0
  }

  /** Ascending puts the smaller column value first, descending the larger. */
  lemma BeforeMeaning(a: User, b: User, key: SortKey, dir: Direction)
    ensures dir == Ascending ==> (Before(key, dir)(a, b) <==> Less(KeyOf(a, key), KeyOf(b, key)))
    ensures dir == Descending ==> (Before(key, dir)(a, b) <==> Less(KeyOf(b, key), KeyOf(a, key)))
  {
    LessAsymmetric(KeyOf(a, key), KeyOf(b, key));
  }

  /** The comparator induces a strict weak order, so sorting with it is well defined. */
  lemma BeforeIsStrictWeakOrder(key: SortKey, dir: Direction)
    ensures StrictWeakOrder(Before(key, dir))
  {
    var prec := Before(key, dir);
    forall a, b
      ensures prec(a, b) ==> !prec(b, a)
    {
      CompareAntisymmetric(a, b, key, dir);
    }
    forall a, b, c
      ensures !prec(a, b) && !prec(b, c) ==> !prec(a, c)
    {
      var ka, kb, kc := KeyOf(a, key), KeyOf(b, key), KeyOf(c, key);
      BeforeMeaning(a, b, key, dir);
      BeforeMeaning(b, c, key, dir);
      BeforeMeaning(a, c, key, dir);
      LessTotal(ka, kb);
      LessTotal(kb, kc);
      LessTransitive(ka, kc, kb);
      LessTransitive(kc, ka, kb);
    }
  }

  /** Records in order of the column: ascending or descending, ties in any order. */
  predicate OrderedBy(s: seq<User>, key: SortKey, dir: Direction) {
    forall i, j :: 0 <= i < j < |s| ==>
      if dir == Ascending then !Less(KeyOf(s[j], key), KeyOf(s[i], key))
      else !Less(KeyOf(s[i], key), KeyOf(s[j], key))
  }

  lemma OrderedByMeaning(s: seq<User>, key: SortKey, dir: Direction)
    ensures OrderedBy(s, key, dir) <==> SortedBy(s, Before(key, dir))
  {
    forall i, j | 0 <= i < j < |s| {
      BeforeMeaning(s[j], s[i], key, dir);
    }
  }

  /** The list `handleSort` stores: a permutation of `s` ordered by the column. */
  function Sort(s: seq<User>, key: SortKey, dir: Direction): (r: seq<User>)
    ensures multiset(r) == multiset(s)
    ensures OrderedBy(r, key, dir)
  {
    BeforeIsStrictWeakOrder(key, dir);
    var r := InsertionSort(s, Before(key, dir));
    OrderedByMeaning(r, key, dir);
    r
  }

  /** No two records share a value in the column. */
  predicate DistinctKeys(s: seq<User>, key: SortKey) {
    forall i, j :: 0 <= i < j < |s| ==> KeyOf(s[i], key) != KeyOf(s[j], key)
  }

  /**
    When the column's values are distinct, a permutation of `s` ordered by the
    column is exactly `Sort(s, key, dir)`: every correct sorting algorithm, stable
    or not, stores the same list.
  */
  lemma SortIsTheOnlyOrder(s: seq<User>, t: seq<User>, key: SortKey, dir: Direction)
    requires DistinctKeys(s, key)
    requires multiset(t) == multiset(s)
    requires OrderedBy(t, key, dir)
    ensures t == Sort(s, key, dir)
  {
    var prec := Before(key, dir);
    var r := Sort(s, key, dir);
    BeforeIsStrictWeakOrder(key, dir);
    OrderedByMeaning(t, key, dir);
    OrderedByMeaning(r, key, dir);
    PairwisePermutation(s, r, (x: User, y: User) => KeyOf(x, key) != KeyOf(y, key));
    assert Comparable(r, prec) by {
      forall i, j | 0 <= i < j < |r|
        ensures prec(r[i], r[j]) || prec(r[j], r[i])
      {
        CompareZeroIffSameKey(r[i], r[j], key, dir);
      }
    }
    SortedPermutationUnique(r, t, prec);
  }
}
