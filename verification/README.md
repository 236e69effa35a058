# Artwork data table: selection and pagination

This project models the logic of `PrimeReactDataTable`, a React component. It pages through a remote artwork catalog and lets the user tick rows. All of that logic lives in one file, `src/components/PrimeReactDataTable.tsx`. The model lifts it out as pure state transitions:

- `Selection` (`selection.dfy`): the selection state is a pair of id sets, `selected` and `deselected`. The current page is the ordered sequence of row ids on screen. Three handlers act on it:
  - `toggleRow` is `ToggleRow`.
  - `toggleSelectAllPage` is `ToggleSelectAllPage`, guarded by `AllSelectedOnPage`.
  - `handleOverlaySelect` is `OverlaySelect`.

  Each handler updates both sets through two React state setters: `toggleRow` and `toggleSelectAllPage` nest one updater inside the other, and `handleOverlaySelect` calls them one after the other. The model treats each handler as one atomic transition on the pair. The two handlers that loop over the rows are also written as methods whose loops mirror the component's `forEach`/`slice`/`filter`. Each method is proved equal to its set-level function.
- `Pagination` (`pagination.dfy`): this module covers the page count (`Math.ceil(total / limit)`) and the window of at most five numbered buttons. It also covers the "Showing X to Y from Z entries" caption and the Prev, Next and numbered-button clicks.
- `Table` (`table.dfy`): the whole component as one state machine. Its state holds the loaded rows, page, total, limit and selection. User clicks and the arrival of a fetched page are events. The model proves invariants over any sequence of events.

A row is modelled by its integer catalog id. The overlay's parsed number is an `Option<int>`, where `None` stands for `NaN`.

Two consequences of the code that are easy to misread:

- Two header-checkbox clicks give back the state only when the page is empty, or it is fully ticked with no row deselected, or no row is ticked and every row is deselected (`ToggleSelectAllPageTwiceRestores`). From a partly ticked page, two clicks untick the whole page (`ToggleSelectAllPageTwiceFromPartial`, `ToggleSelectAllPageTwiceNotIdentity`).
- On an empty page the caption shows `from = to = (page - 1) * limit`, which is 0 only on page 1 (`ShowingRange`).

## Model

| member | source | states |
|---|---|---|
| Selection.IsSelected | src/components/PrimeReactDataTable.tsx:189 | a ticked row checkbox means the counter is at least 1, and in a consistent state the id is not also deselected |
| Selection.SelectedCount | src/components/PrimeReactDataTable.tsx:101 | the "N rows selected" counter is 0 exactly when nothing is selected |
| Selection.AllSelectedOnPage | src/components/PrimeReactDataTable.tsx:76 | the header checkbox is checked exactly when the page's ids form a non-empty subset of `selected` |
| Selection.HeaderCheckboxMatchesRows | src/components/PrimeReactDataTable.tsx:76 | the header checkbox is checked exactly when the page is non-empty and every row checkbox on it is checked |
| Selection.ToggleRow | src/components/PrimeReactDataTable.tsx:17-37 | the clicked id's membership in `selected` flips; afterwards it is in `deselected` exactly when it is not selected; every other id keeps its membership in both sets; disjointness is preserved |
| Selection.ToggleRowCount | src/components/PrimeReactDataTable.tsx:17-37 | each row click moves the selected count by exactly one: down if the row was ticked, up otherwise |
| Selection.ToggleRowsParity | src/components/PrimeReactDataTable.tsx:17-37 | after any sequence of row clicks, an id is selected iff it was selected before XOR it was clicked an odd number of times |
| Selection.ToggleRowsFrame | src/components/PrimeReactDataTable.tsx:17-37 | clicks on other ids never change an id's membership in either set |
| Selection.ToggleRowsDisjoint | src/components/PrimeReactDataTable.tsx:17-37 | a disjoint state stays disjoint through any sequence of row clicks |
| Selection.ToggleRowFlipsCheckbox | src/components/PrimeReactDataTable.tsx:189-190 | clicking a row's checkbox flips what that checkbox shows and leaves every other row checkbox as it was |
| Selection.ToggleRowTwice | src/components/PrimeReactDataTable.tsx:17-37 | clicking the same row twice gives back a disjoint state in which that id was already selected or deselected |
| Selection.ToggleSelectAllPage | src/components/PrimeReactDataTable.tsx:39-63 | if the page is non-empty and fully ticked, every page id leaves `selected` and enters `deselected`; otherwise every page id enters `selected` and leaves `deselected`; ids off the page are untouched; an empty page changes nothing; disjointness is preserved |
| Selection.ToggleSelectAllPageLoop | src/components/PrimeReactDataTable.tsx:39-63 | the handler's `rows.every` check and its two `forEach` walks give the same state as the set-level transition |
| Selection.ToggleSelectAllPageTwiceFromAll | src/components/PrimeReactDataTable.tsx:39-63 | from a disjoint state with the page fully ticked, two header clicks restore the state exactly |
| Selection.ToggleSelectAllPageTwiceFromPartial | src/components/PrimeReactDataTable.tsx:39-63 | from a non-empty, not fully ticked page, two header clicks leave the whole page deselected |
| Selection.ToggleSelectAllPageTwiceFromAllState | src/components/PrimeReactDataTable.tsx:39-63 | from a fully ticked page, two header clicks keep `selected` and remove the page's ids from `deselected` |
| Selection.ToggleSelectAllPageTwiceRestores | src/components/PrimeReactDataTable.tsx:39-63 | two header clicks give back the state if and only if the page is empty, or fully ticked with no row deselected, or has no row ticked and every row deselected |
| Selection.ToggleSelectAllPageTwiceNotIdentity | src/components/PrimeReactDataTable.tsx:39-63 | concrete case: with row 1 ticked and row 2 not, two header clicks do not give the state back |
| Selection.ToggleSelectAllPageThrice | src/components/PrimeReactDataTable.tsx:39-63 | a third header click yields the same state as the first |
| Selection.OverlaySelect | src/components/PrimeReactDataTable.tsx:65-74 | NaN or a non-positive number changes nothing; otherwise `selected` becomes exactly the ids of the first `min(n, rows)` rows and `deselected` exactly the other page ids; disjointness is preserved |
| Selection.OverlaySelectLoop | src/components/PrimeReactDataTable.tsx:65-71 | the handler's `slice` and its `filter`/`includes` walk give the same state as the set-level transition |
| Selection.OverlaySelectWholePage | src/components/PrimeReactDataTable.tsx:68-71 | asking for at least as many rows as the page holds selects the whole page and deselects nothing |
| Selection.OverlaySelectReplaces | src/components/PrimeReactDataTable.tsx:70-71 | a valid bulk select does not depend on the prior state: selections and deselections on other pages are discarded |
| Selection.OverlaySelectIdempotent | src/components/PrimeReactDataTable.tsx:65-71 | repeating the same bulk select changes nothing |
| Selection.OverlaySelectCounts | src/components/PrimeReactDataTable.tsx:69-71 | on a page of distinct ids, the selected count is `min(n, rows)` and the deselected count is the rest of the page |
| Pagination.TotalPages | src/components/PrimeReactDataTable.tsx:91 | the page count is the least number of `limit`-sized pages that hold `total` records |
| Pagination.TotalPagesZero | src/components/PrimeReactDataTable.tsx:91 | there are no pages exactly when the catalog is empty |
| Pagination.PageWindow | src/components/PrimeReactDataTable.tsx:216-224 | the buttons form an ascending run of consecutive page numbers inside `[1, totalPages]`; there are `min(5, totalPages)` of them; the run contains the current page whenever that page is in range |
| Pagination.PageWindowStart | src/components/PrimeReactDataTable.tsx:217-223 | the first button is `page - 2` clamped into `[1, max(1, totalPages - 4)]` |
| Pagination.PageWindowEmpty | src/components/PrimeReactDataTable.tsx:219-224 | with zero pages there are no buttons |
| Pagination.PageWindowCentred | src/components/PrimeReactDataTable.tsx:218-219 | away from both ends the current page is the middle of five buttons |
| Pagination.PageWindowExamples | src/components/PrimeReactDataTable.tsx:216-224 | with twenty pages: page 1 gives 1..5, page 10 gives 8..12, page 20 gives 16..20 |
| Pagination.ShowingRange | src/components/PrimeReactDataTable.tsx:208-209 | for a non-empty page the caption spans exactly that many records and starts after the previous pages' records; for an empty page both numbers equal the previous pages' record count |
| Pagination.ShowingRangeWithinTotal | src/components/PrimeReactDataTable.tsx:208-210 | on a page the catalog fills, `1 <= from <= to <= total`, and `to == total` exactly on the last page |
| Pagination.ShowingRangeExamples | src/components/PrimeReactDataTable.tsx:208-209 | page 2 of twelve rows at 12 per page shows 13 to 24; an empty first page shows 0 to 0 |
| Pagination.PressPrev | src/components/PrimeReactDataTable.tsx:214 | Prev is disabled exactly on page 1; on any other page it moves to `page - 1`, and from a page `>= 1` it never goes below page 1 |
| Pagination.PressNextAsWritten | src/components/PrimeReactDataTable.tsx:238 | Next as written is disabled exactly when `page == totalPages`; otherwise it moves forward one page |
| Pagination.NextAsWrittenPassesLastPage | src/components/PrimeReactDataTable.tsx:238 | with an empty catalog there are zero pages, yet Next as written moves from page 1 to page 2 |
| Pagination.PressNext | src/components/PrimeReactDataTable.tsx:238 | with the corrected guard, Next is disabled exactly when `page >= totalPages`, an enabled click moves to `page + 1`, and from a page in `[1, max(1, totalPages)]` it stays in that range |
| Pagination.NextGuardsAgreeInRange | src/components/PrimeReactDataTable.tsx:238 | for a page in `[1, totalPages]` the written and corrected guards behave identically |
| Pagination.PressPageButton | src/components/PrimeReactDataTable.tsx:224-227 | clicking a shown button goes to its page; a page number with no button in the window changes nothing; any jump lands inside `[1, totalPages]` |
| Table.Step | src/components/PrimeReactDataTable.tsx:17-89 | selection events leave rows, total, limit and page alone; navigation and load events leave the selection alone; page `>= 1` and disjointness are preserved |
| Table.RunValid | src/components/PrimeReactDataTable.tsx:17-89 | with the corrected Next guard: from the invariant (page `>= 1`, disjoint sets), every sequence of events keeps it |
| Table.NavigationKeepsSelection | src/components/PrimeReactDataTable.tsx:78-89 | with the corrected Next guard: any sequence of page clicks and page loads leaves both selection sets unchanged |
| Table.ClicksStayInRange | src/components/PrimeReactDataTable.tsx:214-238 | with the corrected Next guard and no new page arriving, Prev, Next and numbered-button clicks keep the page inside `[1, max(1, page count)]` |
| Table.StepAsWritten | src/components/PrimeReactDataTable.tsx:238 | with Next guarded as written, a step differs from the corrected `Step` only on a Next click from a page outside `[1, page count]`; it still keeps the selection on navigation events and preserves page `>= 1` and disjointness |
| Table.RunAsWrittenValid | src/components/PrimeReactDataTable.tsx:17-89 | with Next guarded as written, every sequence of events still keeps page `>= 1` and the two sets disjoint |
| Table.ReachableValid | src/components/PrimeReactDataTable.tsx:7-11 | the mount state (page 1, empty selected and deselected sets) keeps the invariant, so every state reached from it by any events keeps page `>= 1` and the two sets disjoint, with either Next guard |
| Table.NavigationAsWrittenKeepsSelection | src/components/PrimeReactDataTable.tsx:78-89 | with Next guarded as written, page clicks and page loads still leave both selection sets unchanged |
| Table.NextAsWrittenLeavesRangeAtMount | src/components/PrimeReactDataTable.tsx:238 | at mount there are zero pages, and clicking Next as written moves to page 2, outside `[1, max(1, page count)]` |
| Table.SelectionSurvivesPageRoundTrip | src/components/PrimeReactDataTable.tsx:78-101 | with 100 records at 12 per page: nine pages; ticking rows 1, 3 and 5 counts 3; going to page 2 and back keeps exactly {1, 3, 5} selected, with their checkboxes still checked |
| Table.BulkSelectFiveOfTwelve | src/components/PrimeReactDataTable.tsx:65-74 | on twelve distinct rows, bulk-selecting 5 ticks the first five, deselects the other seven, and the counter reads 5 |

## Left out

- The HTTP fetch in `src/services/api.ts` is not modelled: it is network I/O. The `useEffect` refetch on page or limit change is also left out. A fetched page arrives in `Table` only as a `Loaded` event.
- Responses can arrive out of order when fetches overlap. That is a concurrency concern and is not modelled: a `Loaded` event is applied whenever it occurs.
- A failed fetch is only logged, so it is not an event: nothing in the state changes.
- All JSX rendering is left out. This covers the CSS classes, the "No data available" row, the `|| "N/A"` cell fallbacks, and opening and closing the overlay. It also covers clearing the overlay's text field and the `min`/`max` attributes of its number input. These are presentation.
- `src/pages/table.tsx` and `src/App.tsx` are composition glue and are not modelled. `src/types/tabledata.ts` only declares types; a row is modelled by its id.
- JavaScript `parseInt` string parsing is not modelled. For example, `"3abc"` parses to 3. The parsed value is an `Option<int>` input.
- Pagination.TotalPages: computed with integer ceiling division for `limit >= 1`. The component uses floating-point `Math.ceil(total / limit)`, which gives `NaN` or `Infinity` when a response reports a limit of 0. That case is excluded by the `PosInt` type.
- Table.ClicksStayInRange: holds only with the corrected Next guard; as written, Next leaves the range on page 1 of an empty catalog, which is the state at mount (`Table.NextAsWrittenLeavesRangeAtMount`).
- Table.Step: uses the corrected Next guard (see Findings), not the guard as written.

## Findings

| source | as written | input that shows it | evidently intended | confidence | as-written member | corrected member |
|---|---|---|---|---|---|---|
| src/components/PrimeReactDataTable.tsx:238 | Next is disabled only when `page === totalPages` | `total = 0`, so `totalPages = 0`, on page 1: Next is enabled and moves to page 2, then 3, and so on, past the last page | disable Next when `page >= totalPages` | medium; not executed | Table.NextAsWrittenLeavesRangeAtMount | Pagination.PressNext |
