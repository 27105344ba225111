/**
  The `UserManagement` component's state and event handlers as pure transitions:
  form submission (validation, duplicate check, add or update), starting an edit,
  deleting a row, sorting by a column and moving between pages.
*/
module UserManagement {

  import opened Wrappers
  import opened Text
  import opened Records
  import opened EmailPattern
  import opened Sorting
  import opened Paging

  /** The form's two fields. */
  datatype FormData = FormData(name: string, email: string)

  /**
    The component's state: the list, the record being edited (by id; `None` is
    "create" mode), the last column sort and the current page.
  */
  datatype State = State(
    users: seq<User>,
    editing: Option<UserId>,
    sortConfig: Option<SortConfig>,
    currentPage: Page)

  /** The state on mount: no records, no edit, no sort, page 1. */
  const Initial: State := State([], None, None, 1)

  // ----- Form validation -----------------------------------------------------

  /** The messages the form shows next to its fields. */
  datatype FieldError = NameRequired | EmailRequired | InvalidEmail

  function NameError(name: string): (e: Option<FieldError>)
    ensures e.None? <==> |name| > 0
    ensures e == Some(NameRequired) <==> name == ""
  {
    if name == "" then Some(NameRequired) else None
  }

  /** The email field is required and must match the email pattern. */
  function EmailError(email: string): (e: Option<FieldError>)
    ensures e == None <==> MatchesPattern(email)
    ensures e == Some(EmailRequired) <==> email == ""
    ensures e == Some(InvalidEmail) <==> email != "" && !MatchesPattern(email)
  {
    if email == "" then Some(EmailRequired)
    else if !IsEmail(email) then Some(InvalidEmail)
    else None
  }

  predicate ValidForm(form: FormData) {
    NameError(form.name).None? && EmailError(form.email).None?
  }

  // ----- Duplicate check -----------------------------------------------------

  /** Equal names or equal emails, ignoring case. */
  predicate Clashes(u: User, form: FormData) {
    Lower(u.name) == Lower(form.name) || Lower(u.email) == Lower(form.email)
  }

  /**
    `user.id !== editingUser?.id`: the record being edited is left out of the
    check; with no edit in progress every record takes part.
  */
  predicate TakesPart(u: User, editing: Option<UserId>) {
    editing.None? || u.id != editing.value
  }

  /** Some record other than the one being edited clashes with the form. */
  ghost predicate HasClash(users: seq<User>, editing: Option<UserId>, form: FormData) {
    exists i :: 0 <= i < |users| && TakesPart(users[i], editing) && Clashes(users[i], form)
  }

  /** `users.some(...)`: the duplicate check, scanning the list front to back. */
  function IsDuplicate(users: seq<User>, editing: Option<UserId>, form: FormData): (dup: bool)
    ensures dup <==> HasClash(users, editing, form)
  {
    if |users| == 0 then false
    else if TakesPart(users[0], editing) && Clashes(users[0], form) then true
    else
      var dup := IsDuplicate(users[1..], editing, form);
      assert HasClash(users[1..], editing, form) ==> HasClash(users, editing, form) by {
        if HasClash(users[1..], editing, form) {
          var i :| 0 <= i < |users| - 1 && TakesPart(users[1..][i], editing) && Clashes(users[1..][i], form);
          assert users[i + 1] == users[1..][i];
        }
      }
      dup
  }

  // ----- Submit --------------------------------------------------------------

  /** What a submit does, as the user sees it. */
  datatype Outcome =
    | FieldErrors(nameError: Option<FieldError>, emailError: Option<FieldError>)
    | DuplicateAlert
    | Added(id: UserId)
    | Updated(id: UserId)

  datatype SubmitResult = SubmitResult(state: State, outcome: Outcome)

  /** The `prevUsers.map(...)` of an update: records with the edited id take the form's values. */
  function ApplyEdit(users: seq<User>, id: UserId, form: FormData): (r: seq<User>)
    ensures |r| == |users|
    ensures forall i :: 0 <= i < |users| ==> r[i].id == users[i].id
    ensures forall i :: 0 <= i < |users| && users[i].id == id ==> r[i].name == form.name && r[i].email == form.email
    ensures forall i :: 0 <= i < |users| && users[i].id != id ==> r[i] == users[i]
  {
    seq(|users|, i requires 0 <= i < |users| =>
      if users[i].id == id then users[i].(name := form.name, email := form.email) else users[i])
  }

  /**
    Submitting the form. Field validation runs first; then the duplicate check,
    which raises an alert and changes nothing; then either an update of the record
    being edited, which ends the edit, or an append of a new record whose id is the
    clock reading `now`.
  */
  function Submit(st: State, form: FormData, now: UserId): (r: SubmitResult)
    ensures r.state.sortConfig == st.sortConfig && r.state.currentPage == st.currentPage
    ensures !ValidForm(form) ==> r == SubmitResult(st, FieldErrors(NameError(form.name), EmailError(form.email)))
    ensures ValidForm(form) && HasClash(st.users, st.editing, form) ==> r == SubmitResult(st, DuplicateAlert)
    ensures ValidForm(form) && !HasClash(st.users, st.editing, form) ==>
      if st.editing.None? then r.outcome == Added(now) else r.outcome == Updated(st.editing.value)
    ensures r.outcome.Added? ==>
      && r.state.users == st.users + [User(now, form.name, form.email)]
      && r.state.editing == None
    ensures r.outcome.Updated? ==>
      && st.editing == Some(r.outcome.id)
      && |r.state.users| == |st.users|
      && (forall i :: 0 <= i < |st.users| ==> r.state.users[i].id == st.users[i].id)
      && (forall i :: 0 <= i < |st.users| && st.users[i].id == r.outcome.id ==>
            r.state.users[i].name == form.name && r.state.users[i].email == form.email)
      && (forall i :: 0 <= i < |st.users| && st.users[i].id != r.outcome.id ==> r.state.users[i] == st.users[i])
      && r.state.editing == None
  {
    if !ValidForm(form) then
      SubmitResult(st, FieldErrors(NameError(form.name), EmailError(form.email)))
    else if IsDuplicate(st.users, st.editing, form) then
      SubmitResult(st, DuplicateAlert)
    else match st.editing
      case Some(id) =>
        SubmitResult(st.(users := ApplyEdit(st.users, id, form), editing := None), Updated(id))
      case None =>
        SubmitResult(st.(users := st.users + [User(now, form.name, form.email)]), Added(now))
  }

  // ----- Edit, delete, sort, paginate ----------------------------------------

  /**
    `handleEdit`: the row's record becomes the one being edited, so the next
    submit's duplicate check leaves out exactly the records with its id.
  */
  function BeginEdit(st: State, u: User): (r: State)
    ensures r.editing == Some(u.id)
    ensures forall v :: TakesPart(v, r.editing) <==> v.id != u.id
    ensures r.users == st.users && r.sortConfig == st.sortConfig && r.currentPage == st.currentPage
  {
    st.(editing := Some(u.id))
  }

  /**
    `prevUsers.filter(user => user.id !== id)`: never longer than the list and free
    of the id. `RemoveIdCounts` and `RemoveIdAppend` state which records it keeps
    and in what order.
  */
  function RemoveId(users: seq<User>, id: UserId): (r: seq<User>)
    ensures |r| <= |users|
    ensures forall i :: 0 <= i < |r| ==> r[i].id != id
  {
    if |users| == 0 then []
    else (if users[0].id != id then [users[0]] else []) + RemoveId(users[1..], id)
  }

  /** Filtering keeps every copy of the records without the id and no copy of the others. */
  lemma {:induction false} RemoveIdCounts(users: seq<User>, id: UserId)
    ensures |RemoveId(users, id)| <= |users|
    ensures forall u :: multiset(RemoveId(users, id))[u] == if u.id == id then 0 else multiset(users)[u]
    decreases |users|
  {
    if |users| > 0 {
      RemoveIdCounts(users[1..], id);
      assert users == [users[0]] + users[1..];
    }
  }

  /**
    Filtering works piece by piece, so the records that stay keep their relative
    order; with the one-record case this determines `RemoveId` completely.
  */
  lemma {:induction false} RemoveIdAppend(a: seq<User>, b: seq<User>, id: UserId)
    ensures RemoveId(a + b, id) == RemoveId(a, id) + RemoveId(b, id)
    decreases |a|
  {
    if |a| == 0 {
      assert a + b == b;
    } else {
      assert (a + b)[1..] == a[1..] + b;
      RemoveIdAppend(a[1..], b, id);
      assert (a + b)[0] == a[0];
    }
  }

  /**
    `handleDelete`: the list becomes `RemoveId` of it, so the records with the id go
    and the others stay, every copy, in their order; the edit ends if it was for
    that id; sort configuration and page are left as they are.
  */
  function Delete(st: State, id: UserId): (r: State)
    ensures r.users == RemoveId(st.users, id)
    ensures forall u :: multiset(r.users)[u] == if u.id == id then 0 else multiset(st.users)[u]
    ensures forall u :: u in r.users <==> u in st.users && u.id != id
    ensures st.editing == Some(id) ==> r.editing == None
    ensures st.editing != Some(id) ==> r.editing == st.editing
    ensures r.sortConfig == st.sortConfig && r.currentPage == st.currentPage
  {
    var users := RemoveId(st.users, id);
    RemoveIdCounts(st.users, id);
    assert forall u :: u in users <==> u in multiset(users);
    st.(users := users, editing := if st.editing == Some(id) then None else st.editing)
  }

  /**
    `handleSort`: chooses the direction, records the configuration and stores the
    list reordered by the column. Edit and page are left as they are.
  */
  function HandleSort(st: State, key: SortKey): (r: State)
    ensures r.sortConfig.Some? && r.sortConfig.value.key == key
    ensures r.sortConfig.value.direction == Descending <==> st.sortConfig == Some(SortConfig(key, Ascending))
    ensures multiset(r.users) == multiset(st.users)
    ensures OrderedBy(r.users, key, r.sortConfig.value.direction)
    ensures r.editing == st.editing && r.currentPage == st.currentPage
  {
    var direction := NextDirection(st.sortConfig, key);
    st.(sortConfig := Some(SortConfig(key, direction)), users := Sort(st.users, key, direction))
  }

  /**
    The rows of the table: `min(5, n - (p - 1) * 5)` records from index
    `(p - 1) * 5`, or none when the page lies past the end of the list.
  */
  function CurrentUsers(st: State): (rows: seq<User>)
    ensures |rows| <= UsersPerPage
    ensures |rows| == if (st.currentPage - 1) * UsersPerPage >= |st.users| then 0
                      else Min(UsersPerPage, |st.users| - (st.currentPage - 1) * UsersPerPage)
    ensures rows == st.users[Min((st.currentPage - 1) * UsersPerPage, |st.users|)..Min(st.currentPage * UsersPerPage, |st.users|)]
    ensures |rows| > 0 ==> (st.currentPage - 1) * UsersPerPage + |rows| <= |st.users|
    ensures forall i :: 0 <= i < |rows| ==> rows[i] == st.users[(st.currentPage - 1) * UsersPerPage + i]
    ensures |rows| > 0 <==> st.currentPage <= PageCount(|st.users|)
  {
    PageView(st.users, st.currentPage)
  }

  /**
    The Prev button: goes back one page, never below page 1, and keeps a page
    that shows records showing records. Nothing but the page changes.
  */
  function ClickPrev(st: State): (r: State)
    ensures r.users == st.users && r.editing == st.editing && r.sortConfig == st.sortConfig
    ensures r.currentPage == if st.currentPage == 1 then 1 else st.currentPage - 1
    ensures st.currentPage <= PageCount(|st.users|) ==> r.currentPage <= PageCount(|st.users|)
  {
    if PrevDisabled(st.currentPage) then st else st.(currentPage := st.currentPage - 1)
  }

  /**
    The Next button: goes forward one page except on the page equal to the page
    count, so from a page that shows records it only reaches pages that do.
    Nothing but the page changes.
  */
  function ClickNext(st: State): (r: State)
    ensures r.users == st.users && r.editing == st.editing && r.sortConfig == st.sortConfig
    ensures r.currentPage == if st.currentPage == PageCount(|st.users|) then st.currentPage else st.currentPage + 1
    ensures st.currentPage <= PageCount(|st.users|) ==> r.currentPage <= PageCount(|st.users|)
    ensures st.currentPage <= PageCount(|st.users|) ==> |CurrentUsers(r)| > 0
  {
    if NextDisabled(st.currentPage, |st.users|) then st else st.(currentPage := st.currentPage + 1)
  }

  /**
    A numbered page button; there is none beyond the page count, and the button of
    the current page is disabled.
  */
  function ClickPage(st: State, button: Page): (r: State)
    ensures button in PageButtons(|st.users|) ==> r == st.(currentPage := button)
    ensures button !in PageButtons(|st.users|) ==> r == st
  {
    var buttons := PageButtons(|st.users|);
    if button <= PageCount(|st.users|) && !PageButtonDisabled(st.currentPage, button) then
      assert buttons[button - 1] == button;
      st.(currentPage := button)
    else
      assert button <= PageCount(|st.users|) ==> buttons[button - 1] == button;
      st
  }
}
