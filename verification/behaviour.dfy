/**
  Properties of the component across events: the list invariant (unique ids and
  case-insensitively unique names and emails, and an edit cursor that points at a
  record) is established on mount and kept by every event the page can raise.
*/
module Behaviour {

  import opened Wrappers
  import opened Text
  import opened Records
  import opened EmailPattern
  import opened Ordering
  import opened Sorting
  import opened Paging
  import opened UserManagement

  predicate UniqueIds(users: seq<User>) {
    forall i, j :: 0 <= i < j < |users| ==> users[i].id != users[j].id
  }

  /** No two records share a name or an email, ignoring case. */
  predicate UniqueNamesAndEmails(users: seq<User>) {
    forall i, j :: 0 <= i < j < |users| ==>
      Lower(users[i].name) != Lower(users[j].name) && Lower(users[i].email) != Lower(users[j].email)
  }

  /** The record being edited, if any, is still in the list. */
  predicate CursorValid(st: State) {
    st.editing.Some? ==> exists i :: 0 <= i < |st.users| && st.users[i].id == st.editing.value
  }

  predicate Inv(st: State) {
    UniqueIds(st.users) && UniqueNamesAndEmails(st.users) && CursorValid(st)
  }

  /** `Date.now()` returned an id no record has yet. */
  predicate FreshId(users: seq<User>, now: UserId) {
    forall i :: 0 <= i < |users| ==> users[i].id != now
  }

  lemma InitialInv()
    ensures Inv(Initial)
  {
  }

  // ----- Submit --------------------------------------------------------------

  /**
    A successful submit keeps names and emails unique: the duplicate check compares
    the form with every record that is not overwritten. Unique ids make the record
    being edited the only one that is overwritten.
  */
  lemma SubmitKeepsNamesAndEmailsUnique(st: State, form: FormData, now: UserId)
    requires UniqueIds(st.users) && UniqueNamesAndEmails(st.users)
    ensures UniqueNamesAndEmails(Submit(st, form, now).state.users)
  {
    var r := Submit(st, form, now);
    var us, vs := st.users, r.state.users;
    if r.outcome.Added? || r.outcome.Updated? {
      assert ValidForm(form) && !HasClash(us, st.editing, form);
      forall i, j | 0 <= i < j < |vs|
        ensures Lower(vs[i].name) != Lower(vs[j].name) && Lower(vs[i].email) != Lower(vs[j].email)
      {
        if r.outcome.Added? {
          if j == |us| {
            assert vs[i] == us[i] && TakesPart(us[i], st.editing);
          }
        } else {
          var id := r.outcome.id;
          if us[i].id == id {
            assert TakesPart(us[j], st.editing);
          } else if us[j].id == id {
            assert TakesPart(us[i], st.editing);
          }
        }
      }
    }
  }

  /** A submit keeps ids unique when the clock reading is not an id already in use. */
  lemma SubmitKeepsIdsUnique(st: State, form: FormData, now: UserId)
    requires UniqueIds(st.users) && FreshId(st.users, now)
    ensures UniqueIds(Submit(st, form, now).state.users)
  {
  }

  /**
    Editing a record and submitting its own values is never a duplicate: the record
    itself is left out of the check and the list comes back unchanged.
  */
  lemma ResubmitOwnValues(st: State, k: nat, now: UserId)
    requires UniqueIds(st.users) && UniqueNamesAndEmails(st.users)
    requires k < |st.users|
    requires ValidForm(FormData(st.users[k].name, st.users[k].email))
    ensures var u := st.users[k];
      var r := Submit(BeginEdit(st, u), FormData(u.name, u.email), now);
      r.outcome == Updated(u.id) && r.state.users == st.users && r.state.editing == None
  {
    var u := st.users[k];
    var form := FormData(u.name, u.email);
    var ed := BeginEdit(st, u);
    assert !HasClash(ed.users, ed.editing, form) by {
      forall i | 0 <= i < |st.users| && TakesPart(st.users[i], ed.editing)
        ensures !Clashes(st.users[i], form)
      {
        assert i != k;
      }
    }
    var r := Submit(ed, form, now);
    assert r.state.users == st.users;
  }

  // ----- Delete --------------------------------------------------------------

  /** A relation between every two positions of a list holds between every two positions of what the filter keeps. */
  lemma {:induction false} RemoveIdKeepsPairwise(users: seq<User>, id: UserId, related: (User, User) -> bool)
    requires forall i, j :: 0 <= i < j < |users| ==> related(users[i], users[j])
    ensures forall i, j :: 0 <= i < j < |RemoveId(users, id)| ==>
      related(RemoveId(users, id)[i], RemoveId(users, id)[j])
    decreases |users|
  {
    if |users| > 0 {
      var tail := users[1..];
      RemoveIdKeepsPairwise(tail, id, related);
      var rest := RemoveId(tail, id);
      RemoveIdCounts(tail, id);
      if users[0].id != id {
        var r := RemoveId(users, id);
        assert r == [users[0]] + rest;
        forall j | 0 < j < |r|
          ensures related(users[0], r[j])
        {
          assert r[j] == rest[j - 1] && rest[j - 1] in multiset(rest);
          assert r[j] in multiset(tail);
          var m :| 0 <= m < |tail| && tail[m] == r[j];
          assert users[m + 1] == r[j];
        }
      }
    }
  }

  lemma DeleteKeepsInv(st: State, id: UserId)
    requires Inv(st)
    ensures Inv(Delete(st, id))
  {
    var r := Delete(st, id);
    RemoveIdKeepsPairwise(st.users, id, (a: User, b: User) => a.id != b.id);
    RemoveIdKeepsPairwise(st.users, id,
      (a: User, b: User) => Lower(a.name) != Lower(b.name) && Lower(a.email) != Lower(b.email));
    if r.editing.Some? {
      var i :| 0 <= i < |st.users| && st.users[i].id == st.editing.value;
      assert st.users[i] in r.users;
    }
  }

  // ----- Sort ----------------------------------------------------------------

  lemma HandleSortKeepsInv(st: State, key: SortKey)
    requires Inv(st)
    ensures Inv(HandleSort(st, key))
  {
    var r := HandleSort(st, key);
    PairwisePermutation(st.users, r.users, (a: User, b: User) => a.id != b.id);
    PairwisePermutation(st.users, r.users,
      (a: User, b: User) => Lower(a.name) != Lower(b.name) && Lower(a.email) != Lower(b.email));
    if r.editing.Some? {
      var i :| 0 <= i < |st.users| && st.users[i].id == st.editing.value;
      assert st.users[i] in multiset(r.users);
    }
  }

  /**
    Under the invariant no two records share a name or an email, so the list a
    header click stores does not depend on the engine's sorting algorithm.
  */
  lemma SortIsDeterminate(st: State, key: SortKey, t: seq<User>)
    requires UniqueNamesAndEmails(st.users)
    requires var d := NextDirection(st.sortConfig, key);
      multiset(t) == multiset(st.users) && OrderedBy(t, key, d)
    ensures t == HandleSort(st, key).users
  {
    assert DistinctKeys(st.users, key);
    SortIsTheOnlyOrder(st.users, t, key, NextDirection(st.sortConfig, key));
  }

  // ----- Runs of events ------------------------------------------------------

  /** The events the page raises. */
  datatype Event =
    | SubmitForm(form: FormData, now: UserId)
    | EditRow(user: User)
    | DeleteRow(id: UserId)
    | SortBy(key: SortKey)
    | Prev
    | Next
    | GoToPage(page: Page)

  /**
    Assumptions about the environment: an Edit button is only offered for a record
    in the list, and the clock does not repeat an id already in use.
  */
  predicate Admissible(st: State, ev: Event) {
    match ev
    case SubmitForm(_, now) => FreshId(st.users, now)
    case EditRow(u) => u in st.users
    case _ => true
  }

  function Step(st: State, ev: Event): State {
    match ev
    case SubmitForm(form, now) => Submit(st, form, now).state
    case EditRow(u) => BeginEdit(st, u)
    case DeleteRow(id) => Delete(st, id)
    case SortBy(key) => HandleSort(st, key)
    case Prev => ClickPrev(st)
    case Next => ClickNext(st)
    case GoToPage(p) => ClickPage(st, p)
  }

  lemma StepKeepsInv(st: State, ev: Event)
    requires Inv(st) && Admissible(st, ev)
    ensures Inv(Step(st, ev))
  {
    match ev
    case SubmitForm(form, now) =>
      SubmitKeepsNamesAndEmailsUnique(st, form, now);
      SubmitKeepsIdsUnique(st, form, now);
    case EditRow(u) =>
      var i :| 0 <= i < |st.users| && st.users[i] == u;
    case DeleteRow(id) =>
      DeleteKeepsInv(st, id);
    case SortBy(key) =>
      HandleSortKeepsInv(st, key);
    case Prev =>
    case Next =>
    case GoToPage(p) =>
  }

  function Run(st: State, evs: seq<Event>): State
    decreases |evs|
  {
    if |evs| == 0 then st else Run(Step(st, evs[0]), evs[1..])
  }

  predicate AdmissibleRun(st: State, evs: seq<Event>)
    decreases |evs|
  {
    |evs| == 0 || (Admissible(st, evs[0]) && AdmissibleRun(Step(st, evs[0]), evs[1..]))
  }

  /** Every state the page reaches from mount satisfies the invariant. */
  lemma {:induction false} RunKeepsInv(st: State, evs: seq<Event>)
    requires Inv(st) && AdmissibleRun(st, evs)
    ensures Inv(Run(st, evs))
    decreases |evs|
  {
    if |evs| > 0 {
      StepKeepsInv(st, evs[0]);
      RunKeepsInv(Step(st, evs[0]), evs[1..]);
    }
  }

  lemma ReachableStatesKeepInv(evs: seq<Event>)
    requires AdmissibleRun(Initial, evs)
    ensures Inv(Run(Initial, evs))
  {
    InitialInv();
    RunKeepsInv(Initial, evs);
  }

  // ----- Scenarios -----------------------------------------------------------

  /**
    Clicking Name sorts ascending, clicking it again sorts descending and a third
    time ascending again; clicking Email after Name starts Email ascending.
  */
  lemma HeaderClicks(st: State)
    requires st.sortConfig != Some(SortConfig(Name, Ascending))
    ensures var once := HandleSort(st, Name);
      var twice := HandleSort(once, Name);
      && once.sortConfig == Some(SortConfig(Name, Ascending))
      && twice.sortConfig == Some(SortConfig(Name, Descending))
      && HandleSort(twice, Name).sortConfig == Some(SortConfig(Name, Ascending))
      && HandleSort(twice, Email).sortConfig == Some(SortConfig(Email, Ascending))
      && HandleSort(once, Email).sortConfig == Some(SortConfig(Email, Ascending))
  {
  }

  /**
    The current page is not adjusted when records go away: with six records on
    page 2, deleting the sixth leaves page 2 selected, beyond the single remaining
    page, and the table empty.
  */
  lemma DeleteCanLeaveEmptyPage()
    ensures var us := [User(1, "a", "a@x.io"), User(2, "b", "b@x.io"), User(3, "c", "c@x.io"),
                       User(4, "d", "d@x.io"), User(5, "e", "e@x.io"), User(6, "f", "f@x.io")];
      var before := State(us, None, None, 2);
      var after := Delete(before, 6);
      && |CurrentUsers(before)| == 1
      && |after.users| == 5
      && after.currentPage == 2 > PageCount(|after.users|)
      && CurrentUsers(after) == []
  {
    var us := [User(1, "a", "a@x.io"), User(2, "b", "b@x.io"), User(3, "c", "c@x.io"),
               User(4, "d", "d@x.io"), User(5, "e", "e@x.io"), User(6, "f", "f@x.io")];
    assert RemoveId(us, 6) == us[..5];
  }

  /**
    With no records there are no page buttons and the page count is 0, so Next is
    enabled on page 1 and leads to an empty page 2.
  */
  lemma EmptyListNextEnabled()
    ensures PageCount(0) == 0 && PageButtons(0) == []
    ensures !NextDisabled(Initial.currentPage, |Initial.users|)
    ensures ClickNext(Initial).currentPage == 2 && CurrentUsers(ClickNext(Initial)) == []
  {
  }

  /**
    A name that differs from a stored one only in letter case is a duplicate: the
    submit raises the alert and the list keeps its one record.
  */
  lemma CaseInsensitiveDuplicate()
    ensures var st := State([User(1, "Bob", "bob@x.io")], None, None, 1);
      Submit(st, FormData("BOB", "robert@x.io"), 2) == SubmitResult(st, DuplicateAlert)
  {
    var st := State([User(1, "Bob", "bob@x.io")], None, None, 1);
    var form := FormData("BOB", "robert@x.io");
    NamesDifferingInCaseClash();
    assert ValidForm(form) by {
      assert SplitAt(form.email, 6, 8);
    }
    assert TakesPart(st.users[0], st.editing);
  }

  lemma NamesDifferingInCaseClash()
    ensures Clashes(User(1, "Bob", "bob@x.io"), FormData("BOB", "robert@x.io"))
  {
    LowerIgnoresCase("Bob", "BOB");
  }
}
