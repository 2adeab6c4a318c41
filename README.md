# CollegeDuniya table: a Dafny model

The component `CollegeDuniya` shows a table of college listings. The rows are
sorted by a column the user picks, and more rows are loaded as the user
scrolls. Rendering aside, it is a small state machine. Its state is `sortBy`,
`sortedData`, `visibleData`, `currentPage`, `hasMore` and `fullyLoaded`, and
a page holds 20 rows. Three transitions change that state:

- the **sort effect** sorts a copy of the dataset, goes back to page 0, and
  shows either the first page or, once everything is loaded, every row;
- **`handleSort(column)`** applies the toggle rule (the same column flips the
  direction, a new column starts ascending). It re-sorts the current rows and
  shows the single page `currentPage` of the result: rows
  `[currentPage*20, (currentPage+1)*20)`, not a prefix;
- **`fetchMoreData`** moves to the next page and appends that page's rows. A
  short page clears `hasMore`. It also sets `fullyLoaded` when the sorted
  rows are the whole dataset.

The project has four modules:

- `Keys` (keys.dfy) holds the sort keys: a number or a string. It defines
  JavaScript's `<` on strings, proves that the key order is a strict total
  order, and proves that a multiset of keys can be sorted in only one way.
- `Colleges` (colleges.dfy) holds the record, the five columns, the sort
  specification, the three-way comparator and what "sorted" means. It also
  holds an insertion sort, `SortRows`, that stands for `Array.prototype.sort`,
  and the toggle rule.
- `Paging` (paging.dfy) models `Array.prototype.slice`, pages and windows
  (the first `n` pages).
- `CollegeDuniya` (table.dfy) is the component as a class. Its fields are the
  state above, and each transition is a method. `Click` is `handleSort`
  followed by the sort effect that its new `sortBy` triggers. `LoadMore` is
  `fetchMoreData` followed by the sort effect that a newly set `fullyLoaded`
  triggers. The file ends with client methods that run whole scenarios.

The dataset (`dummyData.colleges`) is the class's `const colleges`. The
effect sorts a copy made with a spread, and a Dafny sequence is a value, so
the dataset never changes.

Some properties one might expect of the component do not hold of its code:

- The code does not keep `fullyLoaded ==> !hasMore`. `fullyLoaded` is in the
  effect's dependency list (line 40), so setting it re-runs the effect. The
  effect then sets `hasMore` back to true and `currentPage` back to 0, and
  shows every row (`LoadMore`, `FortyFiveRowsSettled`). The scroller is still
  told to stop, because it receives `hasMore && !fullyLoaded` (line 109).
- Sorting does not keep the pagination for long. `handleSort` shows page
  `currentPage`, but the `sortBy` it sets re-runs the effect, and the effect
  resets to page 0 and shows the first page, or every row once fully
  loaded (`Click`).
- The rows shown are not always a prefix of the sorted rows. Right after
  `handleSort` they are one page from the middle (`HandleSort`,
  `PageInWindow`). Once everything is loaded they are all the rows.
- A load after the last one is harmless only because the scroller is told
  to stop. Before the effect re-runs, a third `fetchMoreData` on 45 rows
  adds nothing. After the effect has reset to page 0 with every row shown,
  the same call would append rows 20 to 39 a second time, giving 65 rows
  (`ThirdLoad`). In both states `hasMore && !fullyLoaded` is false, so the
  scroller does not make that call.

Between events, once every effect has run, the table keeps one invariant
(`Settled`). The rows are the sorted dataset and `hasMore` is true. If the
table is fully loaded, every row is shown on page 0. Otherwise the first
`currentPage + 1` pages are shown. Mounting and clicks establish it, and a
load that the scroller asks for keeps it. From it, loading until the
scroller stops always ends fully loaded, with the whole dataset shown
(`LoadAll`, `ScrollToEnd`).

## Model

| member | source | states |
|---|---|---|
| Keys.StrLess | src/Components/CollegeDuniya.js:22-23 | `<` on two strings: never between equal strings, and a proper prefix always comes first |
| Keys.Less | src/Components/CollegeDuniya.js:22-23 | `<` on two column values: never between equal keys |
| Keys.StrLessIrreflexive | src/Components/CollegeDuniya.js:22-23 | `<` on strings never holds between a string and itself |
| Keys.StrLessAsymmetric | src/Components/CollegeDuniya.js:22-23 | `a < b` and `b < a` never both hold, so the comparator's two tests never both fire |
| Keys.StrLessTransitive | src/Components/CollegeDuniya.js:22-23 | `<` on strings is transitive |
| Keys.StrLessTotal | src/Components/CollegeDuniya.js:22-24 | two strings that differ are ordered one way or the other, so the comparator returns 0 only on equal strings |
| Keys.LessIrreflexive | src/Components/CollegeDuniya.js:22-23 | no key is less than itself |
| Keys.LessAsymmetric | src/Components/CollegeDuniya.js:22-23 | the order on keys is asymmetric |
| Keys.LessTransitive | src/Components/CollegeDuniya.js:22-23 | the order on keys is transitive |
| Keys.LessTotal | src/Components/CollegeDuniya.js:22-24 | trichotomy: two keys are equal or one is less than the other |
| Keys.InDirectionTransitive | src/Components/CollegeDuniya.js:20-25 | "not after" in a direction (ascending or descending) is transitive |
| Keys.SortedKeysUnique | src/Components/CollegeDuniya.js:20-25 | two key lists sorted in the same direction with the same multiset of keys are equal |
| Keys.SortedTail | src/Components/CollegeDuniya.js:20-25 | the rest of a sorted key list is sorted and holds the other keys |
| Keys.SortedSameHead | src/Components/CollegeDuniya.js:20-25 | two non-empty sorted key lists with the same keys start with the same key |
| Keys.SortedHeadFirst | src/Components/CollegeDuniya.js:20-25 | the head of a sorted key list comes before every key in it |
| Colleges.KeyOf | src/Components/CollegeDuniya.js:22-22 | `a[column]`: a string key exactly for the name and course columns, a number otherwise, so both keys of one comparison have the same kind |
| Colleges.Compare | src/Components/CollegeDuniya.js:20-25 | the comparator (also the one at lines 86-90) returns -1, 0 or 1, and 0 exactly when the two keys are equal |
| Colleges.CompareAntisymmetric | src/Components/CollegeDuniya.js:20-25 | `compare(a, b) == -compare(b, a)` for the comparator of the sort effect, and of `handleSort` (lines 86-90) |
| Colleges.CompareMeaning | src/Components/CollegeDuniya.js:21-24 | the comparator allows `a` before `b` exactly when `a`'s key is not greater (ascending) or not smaller (descending) |
| Colleges.InOrderTotal | src/Components/CollegeDuniya.js:20-25 | of any two rows, the comparator lets one of them go first |
| Colleges.InOrderTransitive | src/Components/CollegeDuniya.js:20-25 | the comparator's "may go first" is transitive, so `sort` has a consistent comparator |
| Colleges.Insert | src/Components/CollegeDuniya.js:20-25 | inserting a row into a sorted list gives a sorted list holding one more copy of that row |
| Colleges.SortRows | src/Components/CollegeDuniya.js:20-25 | the sort gives a sorted permutation of its input |
| Colleges.SortedIffKeysSorted | src/Components/CollegeDuniya.js:20-25 | rows are sorted exactly when the sort column is non-decreasing (ascending) or non-increasing (descending), in both directions of the equivalence |
| Colleges.MultisetKeys | src/Components/CollegeDuniya.js:20-25 | two permutations of the same rows hold the same multiset of sort-column values |
| Colleges.SortedPermutationsAgreeOnKeys | src/Components/CollegeDuniya.js:20-25 | any two results the sort may give have the same length and the same sort-column value at each position; only the order among equal keys is left open |
| Colleges.HeadLeads | src/Components/CollegeDuniya.js:20-25 | the first sorted row may go before every input row: it has the smallest key when ascending and the largest when descending |
| Colleges.Toggled | src/Components/CollegeDuniya.js:84-84 | the toggle rule: the new `sortBy` has the clicked column, always differs from the old one, and starts ascending on a new column |
| Colleges.ToggleTwice | src/Components/CollegeDuniya.js:84-84 | two clicks on the active column restore its direction; two clicks on a new column leave it descending |
| Paging.Slice | src/Components/CollegeDuniya.js:59-62 | `slice(start, end)` has length `min(end, len) - start` when `start` is before both, and 0 otherwise; element `i` is `s[start + i]` |
| Paging.Page | src/Components/CollegeDuniya.js:59-62 | page `p` has at most 20 rows, lies within the rows, and its row `i` is row `p * 20 + i` |
| Paging.Window | src/Components/CollegeDuniya.js:35-72 | the window built as the table builds it, the first page (line 35) with each next page appended (line 72), is the prefix of the rows of length `min((p + 1) * 20, len)` |
| Paging.PageLength | src/Components/CollegeDuniya.js:59-66 | a page has at most 20 rows; it is full exactly when `(page + 1) * 20 <= len`, and empty exactly when `len <= page * 20` |
| Paging.PageInWindow | src/Components/CollegeDuniya.js:93-95 | the page `handleSort` shows is the window's rows from `page * 20` on, a slice rather than a prefix |
| Paging.FirstPage | src/Components/CollegeDuniya.js:35-35 | `slice(0, perPage)` is both page 0 and the one-page window |
| Paging.WindowThenPage | src/Components/CollegeDuniya.js:59-72 | the first `p + 1` pages followed by page `p + 1` are the first `p + 2` pages |
| Paging.WindowCoversAll | src/Components/CollegeDuniya.js:65-69 | once the pages reach the last row, the window is all the rows |
| CollegeDuniya.CollegeTable.Valid | src/Components/CollegeDuniya.js:20-27 | the state invariant: `sortedData` is a sorted permutation of the dataset, so its length is the dataset's (the test at line 67) |
| CollegeDuniya.CollegeTable.Settled | src/Components/CollegeDuniya.js:29-36 | the state between events: sorted dataset and `hasMore` set; fully loaded means every row shown on page 0, otherwise the first `currentPage + 1` pages are shown and page `currentPage` starts at a row or at the end (it is kept by loads, lines 63-72) |
| CollegeDuniya.CollegeTable.MoreToLoad | src/Components/CollegeDuniya.js:109-109 | the flag given to the scroller is false whenever `fullyLoaded` is set |
| CollegeDuniya.CollegeTable.constructor | src/Components/CollegeDuniya.js:6-40 | the initial state (`sortBy` is ranking ascending, page 0, `hasMore`, not `fullyLoaded`) after the sort effect's first run: sorted dataset, first page shown, `Settled` |
| CollegeDuniya.CollegeTable.SortEffect | src/Components/CollegeDuniya.js:17-40 | `sortedData` becomes a sorted permutation of the dataset under `sortBy`, with `currentPage == 0` and `hasMore`. `visibleData` is all rows when `fullyLoaded` and the first `min(20, len)` otherwise. `sortBy` and `fullyLoaded` are unchanged |
| CollegeDuniya.CollegeTable.FetchMoreData | src/Components/CollegeDuniya.js:56-74 | the page goes up by exactly 1 and the next page's rows are appended. `hasMore` is cleared exactly when that page is short, and otherwise kept. `fullyLoaded` is set only when the page is short and the sorted rows have the dataset's length, and is never cleared. `sortedData` and `sortBy` are unchanged, and a window stays a window one page longer |
| CollegeDuniya.CollegeTable.HandleSort | src/Components/CollegeDuniya.js:82-98 | toggle rule for `sortBy`. The new rows are a sorted permutation of the old ones under the new `sortBy`. `visibleData` is page `currentPage` (at most 20 rows). Page and flags are unchanged, and validity is kept |
| CollegeDuniya.CollegeTable.Click | src/Components/CollegeDuniya.js:92-97 | `handleSort` then the effect: toggled `sortBy`, sorted dataset, page 0, `hasMore`, first page (or all rows when fully loaded) shown, `Settled` |
| CollegeDuniya.CollegeTable.LoadMore | src/Components/CollegeDuniya.js:63-72 | `fetchMoreData` then, if it set `fullyLoaded`, the effect: page 0 with every row shown, and the scroller asks for nothing more. Otherwise the same as `fetchMoreData`. `fullyLoaded` is monotone, and a load the scroller asks for keeps `Settled` |
| CollegeDuniya.FortyFiveRows | src/Components/CollegeDuniya.js:58-72 | with 45 rows the first page and two loads show 20, 40 and 45 rows. After the second load `hasMore` is false and `fullyLoaded` is true, so `hasMore && !fullyLoaded` is false |
| CollegeDuniya.FortyFiveFetched | src/Components/CollegeDuniya.js:58-72 | two loads on a freshly mounted 45-row table: 40 rows after the first, 45 after the second, page 2, `hasMore` cleared and `fullyLoaded` set |
| CollegeDuniya.LoadAll | src/Components/CollegeDuniya.js:56-74 | from a settled table, loading while the scroller asks for more ends: fully loaded, settled, every sorted row shown, and `sortBy` unchanged |
| CollegeDuniya.ScrollToEnd | src/Components/CollegeDuniya.js:56-74 | for any dataset, mounting and scrolling to the end shows the whole dataset sorted by rank ascending, fully loaded, with the scroller stopped |
| CollegeDuniya.ThirdLoad | src/Components/CollegeDuniya.js:58-72 | on 45 rows, a third load before the effect re-runs leaves 45 rows. After it re-runs, the load gives 65 rows whose last 20 repeat rows 20 to 39. The scroller flag is false in both states |
| CollegeDuniya.ThirdLoadUnsettled | src/Components/CollegeDuniya.js:58-72 | on 45 rows, a third load without the effect re-run leaves 45 rows, and the scroller had been told to stop |
| CollegeDuniya.ThirdLoadSettled | src/Components/CollegeDuniya.js:29-40 | on 45 rows with the effect re-run, a forced load gives 65 rows whose last 20 repeat rows 20 to 39, and the scroller had been told to stop |
| CollegeDuniya.FortyFiveLoaded | src/Components/CollegeDuniya.js:29-40 | two loads with the effect re-run on a freshly mounted 45-row table end on page 0, fully loaded, with all 45 sorted rows shown and `hasMore` set |
| CollegeDuniya.FortyFiveRowsSettled | src/Components/CollegeDuniya.js:29-40 | with the effect run again after the second load: 45 rows shown, page 0, `hasMore` true again, and the scroller still asks for nothing |
| CollegeDuniya.SortedRanks | src/Components/CollegeDuniya.js:20-25 | rows holding ranks 1 to 45, sorted by rank ascending, hold rank `i + 1` at position `i` |
| CollegeDuniya.FirstPageOfRanks | src/Components/CollegeDuniya.js:20-35 | when the ranks are 1 to 45 in any order, the first page shows ranks 1 to 20 in order |
| CollegeDuniya.SortByFeesDescending | src/Components/CollegeDuniya.js:84-97 | two clicks on the fees header give `sortBy = {fees, descending}`, and the first row shown is a dataset row with the highest fees |

## Left out

- The scroll-position effect (lines 43-53), `handleScroll` (lines 77-79) and the `scrollPosition` state (line 10). They read and write the page layout (`scrollHeight`, `scrollTop`) and divide floating-point heights.
- Rendering (lines 100-157): the table markup, the direction glyphs and the cell formatting.
- The `react-infinite-scroll-component` library (line 3). When it calls `next` is its own behaviour. The model only exposes the flag it is given, `MoreToLoad` (line 109).
- The 500 ms timer and React's effect scheduling and batching (lines 17, 57). Each handler is one atomic step. A timer callback that runs after the component is gone is not modelled.
- A change of the `dummyData` prop. The dataset is fixed for the table's lifetime.
- JavaScript's coercion when comparing values of different types, or `undefined` fields (lines 22-23, 87-88). Records are well typed. Within a column all keys have one kind, and between a number and a string the order is fixed arbitrarily.
- Numbers are JavaScript doubles. The model uses unbounded integers for rank and fees, and an ordered integer key for the user rating.
- JavaScript compares strings by UTF-16 code unit. Dafny compares characters by Unicode scalar value. The two orders differ only for characters outside the Basic Multilingual Plane.
- CollegeDuniya.CollegeTable.SortEffect: states only that `sortedData` is some sorted permutation. ECMAScript 2019 requires `sort` to be stable, which would also fix the order of rows with equal keys. The same holds for `HandleSort` and `Click`.
