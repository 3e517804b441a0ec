# UserData component: a Dafny model

`src/Components/UserData.tsx` is a student form with a paginated, searchable table. A record
has four free-text fields: first name, last name, email and number. The component keeps five
state cells:

- the record list `data`;
- the draft `formData`;
- the edit cursor `editIndex`;
- the page cursor `currentPage`;
- the search string `searchQuery`.

Pages hold 5 rows. The event handlers change these cells. The filtered list, the rows of the
current page and the page-number buttons are recomputed from them on every render.

The model has six modules:

- `Records` (`records.dfy`): the record type and the four-case field name. It also defines
  ASCII `toLowerCase` and `String.prototype.includes`.
- `Views` (`views.dfy`): the derived views as functions. These are the page count
  `ceil(n / 5)`, the row-window indices, the name filter, JavaScript's `Array.prototype.slice`
  with its clamping and negative indices, and `currentData`. `pageNumbers` is a method with the
  counting loop of the source.
- `Transitions` (`transitions.dfy`): the state as a value `State`, plus one function per
  handler. Each function takes the snapshot a render saw to the state the next render sees.
  Every value is read from the snapshot, so `handleDelete` uses the pre-delete
  `currentPage`. One exception is the add-mode branch of `handleChange`, which uses the
  updater form `setFormData(prevData => ...)` and reads the pending draft instead. The two
  agree when each event is rendered before the next one, which is what the model assumes.
  The properties of each handler are stated in its function's contract, and lemmas relate
  handlers to views and invariants.
- `Component` (`component.dfy`): the component as a class. It has the five cells as fields and
  one method per handler that assigns them. Each method is proved to produce the state of the
  matching transition.
- `Scenarios` (`scenarios.dfy`): concrete runs. These are six adds, the "ann" search, deleting
  the only record, and live edits of row 2.
- `Findings` (`findings.dfy`): three defects of the delete and row handlers. Each is shown on a
  concrete state, next to a corrected definition.

The model follows the code as written in three places where it departs from the evident intent:

- Clearing the edit cursor when its record is removed is the evident intent. The code leaves
  `editIndex` alone on delete, and so does `Transitions.Deleted`.
- Keeping `currentPage` within the pages of the list is the evident intent. The code's strict
  `<` page rule can leave it one past the last page (see Findings).
- Acting on the record a table row shows is the evident intent. The row buttons pass the row's
  position in the visible list, and the handlers use it as an index into the full list, so
  while a query is entered they can hit another record (see Findings).

## Model

| member | source | states |
|---|---|---|
| `Records.WithField` | src/Components/UserData.tsx:27-30 | `{...u, [name]: value}`: the named field takes the value and the other three fields keep theirs |
| `Records.Lower` | src/Components/UserData.tsx:85-86 | `toLowerCase` keeps the length, leaves no upper-case letter, and changes only characters that were upper-case letters (ASCII only) |
| `Records.LowerIdempotent` | src/Components/UserData.tsx:85-86 | lower-casing a lower-cased string changes nothing |
| `Records.IncludesIffOccurs` | src/Components/UserData.tsx:85-86 | `s.includes(t)` holds exactly when `t` occurs as a contiguous window of `s` at some position |
| `Records.IncludesEmpty` | src/Components/UserData.tsx:85-86 | every string includes the empty string |
| `Views.PageCount` | src/Components/UserData.tsx:92 | `Math.ceil(n / 5)`: the least page count whose pages hold `n` rows; 0 exactly when `n` is 0 |
| `Views.RowWindowsTile` | src/Components/UserData.tsx:81-82 | the page windows tile the rows: row `i` lies in the window of page `i / 5 + 1`, each window starts where the previous one ends, and a row of an `n`-row list falls on one of the `ceil(n/5)` listed pages |
| `Views.RowIndex` | src/Components/UserData.tsx:180-184 | the Edit and Delete buttons pass `indexOfFirstRow + index`, never negative on a page from 1 |
| `Views.FilterByName` | src/Components/UserData.tsx:83-87 | a record is in the filtered list iff it is in `data` and its lower-cased first or last name includes the lower-cased query; no longer than `data` |
| `Views.FilterKeepsEveryMatchingCopy` | src/Components/UserData.tsx:83-87 | each record occurs in the filtered list as many times as in `data` if it matches, and not at all otherwise; with the subsequence lemma this fixes the result, duplicates included |
| `Views.FilterIsSubsequence` | src/Components/UserData.tsx:83-87 | the filtered list is an order-preserving subsequence of `data` |
| `Views.FilterAppend` | src/Components/UserData.tsx:83-87 | filtering a concatenation is the concatenation of the filtered parts |
| `Views.EmptyQueryKeepsAll` | src/Components/UserData.tsx:83-87 | with an empty query the filter keeps every record, in order |
| `Views.MatchIgnoresContactFields` | src/Components/UserData.tsx:84-86 | changing a record's email or number never changes whether it matches |
| `Views.MatchIsCaseInsensitive` | src/Components/UserData.tsx:85-86 | a query and its lower-cased form match the same records |
| `Views.Slice` | src/Components/UserData.tsx:88 | `slice(start, end)`: for `0 <= start`, element `k` is `s[start + k]`; for `0 <= start <= end`, the length is the part of `[start, end)` inside `s`; unless `0 <= start` and `end < 0` (where a negative end counts from the back), the length never exceeds `end - start` |
| `Views.CurrentData` | src/Components/UserData.tsx:88 | at most 5 rows; for page `p >= 1`, row `k` is visible row `(p-1)*5 + k`, and the count is what is left of the visible list from there, capped at 5; every page from 1 to `ceil(total/5)` shows at least one row |
| `Views.PageNumbers` | src/Components/UserData.tsx:90-94 | the page buttons are exactly `1, 2, ..., ceil(totalItems/5)`, strictly ascending |
| `Transitions.Changed` | src/Components/UserData.tsx:23-38 | in edit mode only field `name` of row `editIndex` changes (length, other rows, other fields and draft kept); in add mode only field `name` of the draft changes (`data` kept); cursor, page and query kept |
| `Transitions.Submitted` | src/Components/UserData.tsx:40-54 | in edit mode only the cursor is cleared; in add mode the list grows by one, with the old rows unchanged and the draft last, the draft resets to four empty strings, and the page becomes `ceil(newLen/5)`, whose window holds the new row's index |
| `Transitions.Edited` | src/Components/UserData.tsx:56-58 | the cursor is set to `index` and nothing else changes |
| `Transitions.WithoutIndex` | src/Components/UserData.tsx:61 | `filter((_, i) => i !== index)` removes exactly element `index`, keeping the rest in order; an index out of range leaves the list as it is |
| `Transitions.Deleted` | src/Components/UserData.tsx:60-67 | row `index` is removed (out of range: nothing removed); the query is cleared iff the new list is empty; draft and cursor untouched; the page drops by exactly one iff it was above 1 and the new length is strictly below `(page-1)*5`, and never below 1 |
| `Transitions.PageChanged` | src/Components/UserData.tsx:69-71 | the page becomes `pageNumber` and nothing else changes |
| `Transitions.SearchChanged` | src/Components/UserData.tsx:73-75 | the query becomes `value`; the page is not reset |
| `Transitions.Searched` | src/Components/UserData.tsx:77-79 | the page becomes 1 and nothing else changes |
| `Transitions.AddShowsNewRow` | src/Components/UserData.tsx:44-52 | with no query, the page shown after an add ends with the added record |
| `Transitions.SearchShowsFirstMatches` | src/Components/UserData.tsx:77-88 | after Search the table shows the first `min(5, total)` rows of the visible list |
| `Transitions.PageInRangeKept` | src/Components/UserData.tsx:23-79 | every handler but delete keeps the page within `[1, max(1, ceil(len/5))]`; a page change does too when it goes to a listed page |
| `Transitions.CursorValidKept` | src/Components/UserData.tsx:23-79 | every handler but delete keeps the edit cursor on a row of the list, and an Edit button of a shown row sets it to a row of the list, with or without a query |
| `Transitions.DeleteKeepsPageFromValidPage` | src/Components/UserData.tsx:64-66 | from a page in range, deleting an existing row never changes the page |
| `Transitions.EditSurvivesSubmit` | src/Components/UserData.tsx:25-42 | edit, change, save, edit again: the changed value is still in the row (edits are live and nothing reverts them), whether or not another row was under edit before |
| `Component.UserDataComponent.constructor` | src/Components/UserData.tsx:11-21 | starts with an empty list, an empty draft, no cursor, page 1 and an empty query |
| `Component.UserDataComponent.HandleChange` | src/Components/UserData.tsx:23-38 | assigns the fields to the state `Transitions.Changed` gives |
| `Component.UserDataComponent.HandleSubmit` | src/Components/UserData.tsx:40-54 | assigns the fields to the state `Transitions.Submitted` gives |
| `Component.UserDataComponent.HandleEdit` | src/Components/UserData.tsx:56-58 | assigns the fields to the state `Transitions.Edited` gives |
| `Component.UserDataComponent.HandleDelete` | src/Components/UserData.tsx:60-67 | assigns the fields to the state `Transitions.Deleted` gives, reading the page from the pre-delete state |
| `Component.UserDataComponent.HandlePageChange` | src/Components/UserData.tsx:69-71 | assigns the fields to the state `Transitions.PageChanged` gives |
| `Component.UserDataComponent.HandleSearchChange` | src/Components/UserData.tsx:73-75 | assigns the fields to the state `Transitions.SearchChanged` gives |
| `Component.UserDataComponent.HandleSearch` | src/Components/UserData.tsx:77-79 | assigns the fields to the state `Transitions.Searched` gives |
| `Scenarios.Typed` | src/Components/UserData.tsx:32-37 | four change events in add mode fill the draft with the given record and leave the list alone |
| `Scenarios.Add` | src/Components/UserData.tsx:43-52 | filling the form and pressing ADD appends the record, clears the draft and lands on page `ceil(newLen/5)` |
| `Scenarios.SixAdds` | src/Components/UserData.tsx:43-52 | six adds from the start give six rows on page 2; page 1 shows rows 1-5 and page 2 shows row 6 |
| `Scenarios.AnnSearch` | src/Components/UserData.tsx:83-87 | searching "ann" in [Ann, anna, Bob] keeps exactly Ann and anna, in that order |
| `Scenarios.DeleteOnlyRecord` | src/Components/UserData.tsx:60-63 | deleting the only record empties the list and clears the query |
| `Scenarios.EditRowTwo` | src/Components/UserData.tsx:25-42 | with row 2 under edit, a last-name change writes to row 2 and not the draft; saving only clears the cursor |
| `Findings.DeleteStrandsEmptyPage` | src/Components/UserData.tsx:64-66 | six rows on page 2, delete row 6: the page stays 2, which now shows no rows and is past the last page |
| `Findings.DeleteLeavesStaleCursor` | src/Components/UserData.tsx:60-67 | delete never moves the edit cursor: deleting the last row while it is under edit leaves the cursor one past the list, and deleting an earlier row under edit leaves it on the record that followed |
| `Findings.RowActionHitsWrongRecord` | src/Components/UserData.tsx:180-184 | with query "ann" over [Bob, Ann], the only row shown is Ann, but its Delete button removes Bob |
| `Findings.CorrectedPage` | src/Components/UserData.tsx:64-66 | the corrected page rule steps back exactly when the page's window is left empty (`newLength <= (page-1)*5`, page above 1), and then by one page, never below 1; it keeps a page in range when one row is deleted |
| `Findings.CorrectedCursor` | src/Components/UserData.tsx:60-67 | the corrected edit cursor is cleared when its own row is deleted, one lower when an earlier row is deleted, and otherwise kept |
| `Findings.CorrectedCursorFollowsRecord` | src/Components/UserData.tsx:60-67 | a cursor inside the list stays inside the shortened list, and unless its row was deleted it names the same record there as before |
| `Findings.DeletedCorrected` | src/Components/UserData.tsx:60-67 | the same list and query as `Deleted`; the page stays or drops by one, and drops exactly when the page's window is left empty (`<=` where the code has `<`), so a page in range stays in range; the edit cursor stays valid: cleared when its row goes, one lower when an earlier row goes, unchanged when a later row (or no row) goes, so it stays on the same record |
| `Findings.CorrectedDeleteLeavesNoEmptyPage` | src/Components/UserData.tsx:64-66 | with no query, the corrected delete steps back exactly when the page the render showed would show no rows |
| `Findings.MatchIndex` | src/Components/UserData.tsx:83-87 | the position in `data` of the `pos`-th filtered record: it holds that record, matches the query, and has exactly `pos` matches before it |
| `Findings.SourceIndex` | src/Components/UserData.tsx:180-184 | the index in `data` of the record shown at a given row of a page: the row's own position without a query; with a query, the matching record with as many matches before it as there are visible rows before the clicked one |
| `Findings.FilterWithoutMatch` | src/Components/UserData.tsx:83-87 | removing the `pos`-th match from `data` removes exactly entry `pos` of the filtered list |
| `Findings.SourceIndexDeletesClickedRow` | src/Components/UserData.tsx:60-63 | deleting at the corrected index removes exactly the clicked row from the visible list, and nothing else from it |

## Left out

- JSX rendering, markup, CSS classes and the conditions that show or hide the table and the
  pagination bar (`src/Components/UserData.tsx:96-205`). Only the index expression the row
  buttons pass to the handlers is modelled (`Views.RowIndex`).
- React mechanics: `useState`, render scheduling and reading `name`/`value` out of a
  `ChangeEvent`. Handlers take plain arguments: a `Field` (one of the four input names) and a
  string.
- `Records.Lower`: lower-cases ASCII letters only. It does not model Unicode case mapping.
- `Views.PageCount`: `Math.ceil(n / 5)` is computed over naturals as `(n + 4) / 5`. This agrees
  with the floating-point result for every list length the component can hold.
- `Transitions.Changed`: requires an edit cursor inside the list. With a stale cursor, the
  indexed assignment of `src/Components/UserData.tsx:27` writes a new element. A cursor equal
  to the length (the case `Findings.DeleteLeavesStaleCursor` builds) appends a row with one
  field set and the other three `undefined`. A cursor further past also leaves holes before it.
  The model represents neither `undefined` fields nor array holes.
- Non-integer page numbers and indices: `currentPage`, `editIndex` and the handler arguments are
  integers.
- The row-position defect is shown for delete only. Edit has the same shape: its button passes
  the same `RowIndex`.

## Findings

The component model keeps the code as written. `Transitions.Deleted` and the class method
built on it are what the handlers do. The corrected definitions stand beside them, each with
the intended property proved.

| source | as written | input that shows it | evidently intended | confidence | as-written member | corrected member |
|---|---|---|---|---|---|---|
| src/Components/UserData.tsx:64 | step back a page only if `newData.length < indexOfFirstRow` | six rows, page 2, delete row 6: five rows remain, page 2 stays and shows nothing | step back when the current page becomes empty (`<=`), so the page stays in range | high; not executed | `Findings.DeleteStrandsEmptyPage` | `Findings.DeletedCorrected` |
| src/Components/UserData.tsx:60-67 | `editIndex` is not touched on delete | one row under edit, delete it: the cursor stays 0 over an empty list | clear the cursor when its row is removed, and shift it down when an earlier row is removed | high; not executed | `Findings.DeleteLeavesStaleCursor` | `Findings.DeletedCorrected` |
| src/Components/UserData.tsx:180-184 | row buttons pass `indexOfFirstRow + index`, a position in the filtered list, as an index into `data` | query "ann" over [Bob, Ann]: Delete on the shown row "Ann" removes "Bob" | pass the index in `data` of the record shown in that row | high; not executed | `Findings.RowActionHitsWrongRecord` | `Findings.SourceIndex` |
