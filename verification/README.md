# User management list — a Dafny model

This project models the list logic of the `UserManagement` React component. The component is a client-side widget that keeps a list of users (id, name, email) in memory. The user can add, edit and delete records, sort the table by name or email, and page through it five rows at a time.

The component's React state (`users`, `editingUser`, `sortConfig`, `currentPage`) becomes one immutable `State` value. Each event handler becomes a pure transition on that value:

- `wrappers.dfy`: `Option`, for the component's nullable state.
- `text.dfy` (`Text`): `toLowerCase` as ASCII case folding, and `<` on strings as lexicographic order on characters. Proved: this order is irreflexive, asymmetric, transitive and total.
- `records.dfy` (`Records`): the `User` record.
- `email.dfy` (`EmailPattern`): the email field's regular expression.
  - `MatchesPattern` states what the expression accepts. The split point that backtracking finds is an existential.
  - `IsEmail` recognizes the same strings without backtracking, and is proved equal to `MatchesPattern`.
- `ordering.dfy` (`Ordering`): insertion sort by any strict weak order. Proved: the result is a sorted permutation. Without ties it is the only sorted permutation. A permutation keeps any symmetric, irreflexive pairwise property.
- `sorting.dfy` (`Sorting`): `handleSort`'s direction toggle and three-way comparator, and the reordering it stores.
- `paging.dfy` (`Paging`): the visible slice, the page count, the numbered buttons and the Prev/Next disabled flags.
- `component.dfy` (`UserManagement`): the state and the handlers. These are form validation, the duplicate check, submit (add or update), edit, delete, sort and the three kinds of page button.
- `behaviour.dfy` (`Behaviour`): the list invariant and its preservation by every event. The invariant is unique ids, names and emails unique up to case, and an edit cursor that names a record in the list. This file also holds concrete scenarios.

Three behaviours of the code are modelled as written:

- `currentPage` is never adjusted after an add or delete, so a delete can leave an empty table (`Behaviour.DeleteCanLeaveEmptyPage`).
- `Math.ceil(n / 5)` is 0 for an empty list, so Next is enabled on page 1 (`Behaviour.EmptyListNextEnabled`).
- `Date.now()` can repeat; id uniqueness is proved under `Behaviour.FreshId`.

## Model

| member | source | states |
|---|---|---|
| UserManagement.NameError | src/components/UserManagement.tsx:97 | the name field is in error exactly when it is empty, and the error is then "Name is required" |
| UserManagement.EmailError | src/components/UserManagement.tsx:105-111 | the email field has no error exactly when it matches the pattern; "Email is required" is reported exactly for the empty string and "Invalid email address" exactly for a non-empty string that fails the pattern |
| UserManagement.IsDuplicate | src/components/UserManagement.tsx:26-31 | the check finds a duplicate iff some record whose id is not the edited id (every record when nothing is being edited) has a case-insensitively equal name or email |
| UserManagement.ApplyEdit | src/components/UserManagement.tsx:39-43 | the update keeps the length and every id; records with the edited id take the form's name and email, all others are unchanged |
| UserManagement.Submit | src/components/UserManagement.tsx:25-50 | invalid fields: errors and no change; duplicate: alert and no change; otherwise, in create mode the list becomes old list ++ [new record with id `now`], and in edit mode only the edited id's records change and the edit ends; sort and page are never touched |
| UserManagement.BeginEdit | src/components/UserManagement.tsx:52-55 | the clicked record's id becomes the edit cursor, so the next duplicate check leaves out exactly the records with that id; list, sort and page are unchanged |
| UserManagement.RemoveId | src/components/UserManagement.tsx:58 | the filtered list is never longer than the old one and holds no record with the deleted id |
| UserManagement.RemoveIdCounts | src/components/UserManagement.tsx:58 | the filter keeps every copy of each record whose id differs and no record with the deleted id |
| UserManagement.RemoveIdAppend | src/components/UserManagement.tsx:58 | filtering a concatenation is concatenating the filtered parts, so the kept records keep their relative order |
| UserManagement.Delete | src/components/UserManagement.tsx:57-63 | the list becomes the filtered list (`RemoveId`): every copy of each record with a different id, in the old order, and no record with the deleted id; the edit cursor is cleared iff it was the deleted id, otherwise unchanged |
| Sorting.NextDirection | src/components/UserManagement.tsx:66-69 | the new direction is descending iff the previous config was the same column ascending |
| Sorting.Compare | src/components/UserManagement.tsx:74-78 | the comparator returns -1, 0 or 1, and is negative exactly when the first record's column value comes first in the direction (smaller for ascending, larger for descending) |
| Sorting.CompareAntisymmetric | src/components/UserManagement.tsx:74-78 | the comparator is consistent: swapping its arguments negates its result |
| Sorting.CompareZeroIffSameKey | src/components/UserManagement.tsx:74-78 | the comparator returns 0 exactly for equal column values |
| Sorting.BeforeIsStrictWeakOrder | src/components/UserManagement.tsx:74-78 | "comparator negative" is a strict weak order, the requirement for a well-defined sort |
| Sorting.Sort | src/components/UserManagement.tsx:73-80 | the stored list is a permutation of the old one, ordered ascending or descending by the column |
| Sorting.SortIsTheOnlyOrder | src/components/UserManagement.tsx:74 | with distinct column values, every permutation ordered by the column equals the modelled result, whatever the engine's sort algorithm |
| UserManagement.HandleSort | src/components/UserManagement.tsx:65-81 | records the column and the toggled direction, stores a permutation ordered by that column and direction, and leaves edit and page alone |
| Text.Lower | src/components/UserManagement.tsx:29-30 | `toLowerCase` keeps the length, folds each ASCII capital to its small letter, keeps every other character, and leaves no ASCII capital |
| Text.Less | src/components/UserManagement.tsx:75-76 | string `<` never holds between equal strings and always puts a proper prefix first |
| Text.LessIsLexicographic | src/components/UserManagement.tsx:75-76 | `a < b` iff the strings agree up to an index where `a` has ended and `b` has not, or `a` has the smaller character |
| Text.LessTransitive | src/components/UserManagement.tsx:75-76 | `<` on strings is transitive |
| Text.LessTotal | src/components/UserManagement.tsx:75-76 | of two distinct strings one is `<` the other |
| Text.LessAsymmetric | src/components/UserManagement.tsx:75-76 | `a < b` and `b < a` never both hold |
| Paging.PageCount | src/components/UserManagement.tsx:153 | `Math.ceil(n / 5)`: the fewest pages of five that hold n records |
| Paging.Slice | src/components/UserManagement.tsx:86 | `slice` with clamped ends: the length and the elements it picks |
| Paging.PageView | src/components/UserManagement.tsx:84-86 | page p shows min(5, n-(p-1)*5) records (none past the end of the list), those from index (p-1)*5 onwards, and is non-empty iff p is at most the page count |
| Paging.PrevDisabled | src/components/UserManagement.tsx:150 | Prev is disabled exactly on the page that starts with the first record |
| Paging.NextDisabled | src/components/UserManagement.tsx:158 | Next is disabled exactly on the page holding the last record, so never for an empty list |
| UserManagement.CurrentUsers | src/components/UserManagement.tsx:84-86 | the table shows exactly the records at indices (page-1)*5 up to page*5, cut at the end of the list: min(5, n-(page-1)*5) of them, and some iff the current page is at most the page count |
| Paging.PageButtons | src/components/UserManagement.tsx:153-157 | there is one button per page, numbered 1 to the page count |
| Paging.PagesCoverList | src/components/UserManagement.tsx:84-86 | the pages 1 .. page count, shown in turn, are the whole list in order |
| Paging.NextDisabledIffLastPage | src/components/UserManagement.tsx:158 | on a numbered page of a non-empty list, Next is disabled exactly where the following page would be empty |
| Paging.TwelveRecords | src/components/UserManagement.tsx:150-158 | 12 records: three pages of 5, 5 and 2; Next disabled on page 3 only, Prev on page 1 |
| UserManagement.ClickPrev | src/components/UserManagement.tsx:150 | Prev goes back one page but never below page 1, stays within the numbered pages, and changes nothing else |
| UserManagement.ClickNext | src/components/UserManagement.tsx:158 | Next goes forward one page except on the page equal to the page count; from a numbered page it only reaches pages that show records; nothing else changes |
| UserManagement.ClickPage | src/components/UserManagement.tsx:153-154 | a numbered button selects its page; the current page's button is disabled (`Paging.PageButtonDisabled`), so clicking it changes nothing; there is no button beyond the page count |
| EmailPattern.IsEmail | src/components/UserManagement.tsx:108 | the recognizer accepts s iff s = local "@" domain "." tld with the three character classes, tld of two or more letters, split at any dot |
| EmailPattern.OnlySplit | src/components/UserManagement.tsx:108 | every match puts the `@` at the first at sign and the `\.` at the last dot |
| EmailPattern.AcceptsDottedParts | src/components/UserManagement.tsx:108 | a dotted local part and a dotted domain are accepted |
| EmailPattern.RejectsSecondAt | src/components/UserManagement.tsx:108 | an address with two at signs is rejected |
| EmailPattern.RejectsOneLetterTld | src/components/UserManagement.tsx:108 | a one-letter top-level domain is rejected |
| Behaviour.SubmitKeepsNamesAndEmailsUnique | src/components/UserManagement.tsx:26-47 | with unique ids, no submit makes two records share a name or an email up to case |
| Behaviour.SubmitKeepsIdsUnique | src/components/UserManagement.tsx:46 | ids stay unique when the clock value is not already an id |
| Behaviour.ResubmitOwnValues | src/components/UserManagement.tsx:28 | editing a record and submitting its own values is not a duplicate; the list is unchanged and the edit ends |
| Behaviour.CaseInsensitiveDuplicate | src/components/UserManagement.tsx:26-36 | "BOB" is a duplicate of a stored "Bob": alert, state unchanged |
| Behaviour.DeleteKeepsInv | src/components/UserManagement.tsx:57-63 | delete keeps ids, names and emails unique and the edit cursor pointing at a record |
| Behaviour.HandleSortKeepsInv | src/components/UserManagement.tsx:65-81 | sorting keeps the invariant |
| Behaviour.SortIsDeterminate | src/components/UserManagement.tsx:73-80 | under unique names and emails, a header click stores the one ordered permutation there is |
| Behaviour.StepKeepsInv | src/components/UserManagement.tsx:25-88 | every event the page raises keeps the invariant, given a fresh clock value and an Edit row taken from the list |
| Behaviour.ReachableStatesKeepInv | src/components/UserManagement.tsx:17-20 | every state reached from the initial one (empty list, no edit, no sort, page 1) satisfies the invariant |
| Behaviour.HeaderClicks | src/components/UserManagement.tsx:65-71 | Name, Name, Name gives ascending, descending, ascending; Email after Name gives Email ascending |
| Behaviour.DeleteCanLeaveEmptyPage | src/components/UserManagement.tsx:57-63 | the page is not clamped after a delete: deleting the sixth of six records on page 2 leaves page 2 selected and empty |
| Behaviour.EmptyListNextEnabled | src/components/UserManagement.tsx:158 | with no records the page count is 0 and Next is enabled on page 1 |

## Left out

- Rendering, CSS and the page shell (`src/App.tsx`) are not modelled. They hold no list logic.
- The form library's plumbing is not modelled: `register`, `handleSubmit`, `reset`, the display of `errors`, and the pre-filling and clearing of the form fields. Validation is modelled by `NameError` and `EmailError` and gates `Submit`.
- The `alert` dialog is the `DuplicateAlert` outcome, with the state unchanged.
- `Date.now()` is the `now` parameter of `Submit`. Its freshness is a hypothesis of the invariant lemmas (`Behaviour.FreshId`), not something the code guarantees.
- Ids are unbounded integers. JavaScript number precision is not modelled.
- Text.Lower: folds ASCII capital letters only. Unicode `toLowerCase` (accented letters, special casings that change length) is not modelled.
- Text.Less: compares Dafny characters (Unicode scalar values). JavaScript compares UTF-16 code units; the two orders agree for characters in the Basic Multilingual Plane only.
- Sorting.Sort: the engine's sort algorithm and its stability are not modelled. The model sorts by insertion. Any two correct results agree when the column's values are distinct (`Sorting.SortIsTheOnlyOrder`), and the invariant guarantees this.
- Sorting by `id`, which `keyof User` allows, is not modelled. The table offers only the name and email headers.
- `currentPage` values below 1 are not modelled (type `Paging.Page`). No button can produce them, because Prev is disabled on page 1.
