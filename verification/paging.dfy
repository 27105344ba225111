/**
  Pagination: the slice of the list shown on the current page, the number of page
  buttons and the enabled state of the Prev / Next buttons.
*/
module Paging {

  /** `usersPerPage`, fixed at 5. */
  const UsersPerPage: nat := 5

  /**
    The values `currentPage` can take: it starts at 1 and is only set to
    `currentPage - 1` when Prev is enabled, to `currentPage + 1`, or to a page
    button's number, all of which are at least 1.
  */
  type Page = p: int | p >= 1 witness 1

  function Min(a: int, b: int): int {
    if a <= b then a else b
  }

  /** `Math.ceil(n / usersPerPage)`: the fewest pages of 5 that hold `n` records. */
  function PageCount(n: nat): (c: nat)
    ensures c * UsersPerPage >= n
    ensures c > 0 ==> (c - 1) * UsersPerPage < n
  {
    (n + UsersPerPage - 1) / UsersPerPage
  }

  /**
    `xs.slice(start, end)` for non-negative arguments: both ends are clamped to the
    length, and an end at or before the start gives the empty list.
  */
  function Slice<T>(xs: seq<T>, start: nat, end: nat): (r: seq<T>)
    ensures |r| == if Min(end, |xs|) <= start then 0 else Min(end, |xs|) - start
    ensures forall i :: 0 <= i < |r| ==> r[i] == xs[start + i]
  {
    var lo := Min(start, |xs|);
    var hi := Min(end, |xs|);
    if lo <= hi then xs[lo..hi] else []
  }

  /**
    `currentUsers`: the records from index `(p - 1) * 5` up to, not including,
    `p * 5`, cut short at the end of the list.
  */
  function PageView<T>(xs: seq<T>, p: Page): (v: seq<T>)
    ensures |v| <= UsersPerPage
    ensures |v| == if (p - 1) * UsersPerPage >= |xs| then 0 else Min(UsersPerPage, |xs| - (p - 1) * UsersPerPage)
    ensures forall i :: 0 <= i < |v| ==> v[i] == xs[(p - 1) * UsersPerPage + i]
    ensures |v| > 0 <==> p <= PageCount(|xs|)
  {
    var indexOfLastUser := p * UsersPerPage;
    var indexOfFirstUser := indexOfLastUser - UsersPerPage;
    Slice(xs, indexOfFirstUser, indexOfLastUser)
  }

  /** The numbered buttons `1 .. PageCount(n)`; none at all for an empty list. */
  function PageButtons(n: nat): (r: seq<Page>)
    ensures |r| == PageCount(n)
    ensures forall i :: 0 <= i < |r| ==> r[i] == i + 1
  {
    seq(PageCount(n), i requires 0 <= i => i + 1)
  }

  /** Prev is disabled exactly on the page that starts with the first record. */
  predicate PrevDisabled(p: Page)
    ensures PrevDisabled(p) <==> (p - 1) * UsersPerPage == 0
  {
    p == 1
  }

  /**
    Next is disabled exactly on the page holding the last record, so never when
    there are no records.
  */
  predicate NextDisabled(p: Page, n: nat)
    ensures NextDisabled(p, n) <==> (p - 1) * UsersPerPage < n <= p * UsersPerPage
  {
    p == PageCount(n)
  }

  /** A numbered button is disabled when it is the current page. */
  predicate PageButtonDisabled(p: Page, button: Page) {
    p == button
  }

  /** The views of pages `1 .. k`, one after the other. */
  function Pages<T>(xs: seq<T>, k: nat): seq<T> {
    if k == 0 then [] else Pages(xs, k - 1) + PageView(xs, k)
  }

  lemma {:induction false} PagesPrefix<T>(xs: seq<T>, k: nat)
    ensures Pages(xs, k) == xs[..Min(k * UsersPerPage, |xs|)]
  {
    if k > 0 {
      PagesPrefix(xs, k - 1);
      var v := PageView(xs, k);
      var lo := Min((k - 1) * UsersPerPage, |xs|);
      var hi := Min(k * UsersPerPage, |xs|);
      assert v == xs[lo..hi];
      assert xs[..hi] == xs[..lo] + xs[lo..hi];
    }
  }

  /**
    The numbered pages partition the list: showing each of them in turn shows every
    record once, in order.
  */
  lemma PagesCoverList<T>(xs: seq<T>)
    ensures Pages(xs, PageCount(|xs|)) == xs
  {
    PagesPrefix(xs, PageCount(|xs|));
  }

  /** Next is disabled on a page exactly when the following page would be empty, for a non-empty list. */
  lemma NextDisabledIffLastPage<T>(xs: seq<T>, p: Page)
    requires |xs| > 0 && p <= PageCount(|xs|)
    ensures NextDisabled(p, |xs|) <==> |PageView(xs, p + 1)| == 0
  {
  }

  /**
    With 12 records the pages hold 5, 5 and 2 records; page 3 shows the last two,
    Next is disabled there and Prev on page 1.
  */
  lemma TwelveRecords<T>(xs: seq<T>)
    requires |xs| == 12
    ensures PageCount(|xs|) == 3 && PageButtons(|xs|) == [1, 2, 3]
    ensures PageView(xs, 1) == xs[0..5] && PageView(xs, 2) == xs[5..10] && PageView(xs, 3) == xs[10..12]
    ensures NextDisabled(3, |xs|) && !NextDisabled(1, |xs|) && !NextDisabled(2, |xs|)
    ensures PrevDisabled(1) && !PrevDisabled(3)
  {
    assert PageView(xs, 1) == xs[0..5];
    assert PageView(xs, 2) == xs[5..10];
    assert PageView(xs, 3) == xs[10..12];
  }
}
