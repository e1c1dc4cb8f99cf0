# User table view — a Dafny model

The modelled program is a browser page that lists users (id, username, email,
registration date, rating) in a table:
- five rows per page, with page buttons below the table;
- a search field that filters by username or email, case-insensitively;
- two sort buttons, one for registration date and one for rating; a click
  makes that field the only active sort and flips its direction;
- a delete button on every row, confirmed in a dialog.

All of it lives in `src/js/index.js`. This project models the page's
in-memory list pipeline and its module-level state:
- `users`, `filteredUsers`, `search`, `selectPage`, `selectedUserId`;
- whether the dialog is open;
- the `filters` flags.

Each event handler is a state transition on that state.

Modules, one file each:

- `Users` (`users.dfy`):
  - the `User` record and the two sortable fields;
  - `Filter` (`Array.prototype.filter`);
  - ASCII lower-casing and substring containment (`includes`).
- `Search` (`search.dfy`): `searchUser`, including the de-duplication of `[...new Set(list)]`.
- `Filters` (`filters.dfy`):
  - the `filters` object as a two-entry table;
  - `activeFilters` and `isClearBtnShown`;
  - the tables left by `diactivateSortFilters` and by a sort-button click.
- `Sorting` (`sorting.dfy`):
  - the comparators of `sortFilter`;
  - a stable insertion sort standing for `Array.prototype.sort`;
  - a proof that it is the only stable sort for that comparator.
- `Pagination` (`pagination.dfy`):
  - `cutUsersByPage`, with `slice`'s index clamping;
  - the page-button count;
  - the buttons `createPagination` produces.
- `Removal` (`removal.dfy`): `findIndex` and `removeObjectWithId`.
- `View` (`view.dfy`): class `ViewState`, whose fields are the module-level variables.
  - Its methods are the fetch callback, `sortFilter`, `updateTable`, `searchUser`, `diactivateSortFilters`, `openModal` and the handlers.
  - Its invariant `Valid()` holds between events:
    - both filters carry their own names;
    - at most one filter is active;
    - `selectPage >= 1`;
    - ids in `users` are unique;
    - `filteredUsers` has no duplicates, and each of its entries is in `users`.

The code has some quirks, and the model keeps them as written:
- A non-empty search filters the previous `filteredUsers`, not `users`.
- `isIncreases` set means larger keys first.
- A sort-button click deactivates the other filter but leaves its direction alone.
- The clear button leaves `search` and `selectPage` as they were. It only empties the input element.
- Confirming a delete keeps `selectedUserId`.

## Model

| member | source | states |
|---|---|---|
| Users.Filter | src/js/index.js:110-115 | the filtered list is no longer than the input and holds exactly the elements that pass the test; a list without duplicates stays without |
| Users.FilterAgree | src/js/index.js:110-115 | two tests that agree on every element select the same list |
| Users.ContainsIff | src/js/index.js:111 | the left-to-right `includes` scan succeeds exactly when the needle occurs at some offset of the haystack |
| Users.Lower | src/js/index.js:111 | lower-casing keeps the length, maps each character through the ASCII lower-case map, and leaves no character in `'A'..'Z'` |
| Users.LowerIdempotent | src/js/index.js:111 | lower-casing twice is the same as lower-casing once |
| Users.Contains | src/js/index.js:111 | `includes`: the empty needle is always found, and a found needle is no longer than the haystack |
| Users.SubsetUniqueIds | src/js/index.js:309-310 | distinct entries drawn from a list with unique ids have unique ids |
| Search.NameMatches | src/js/index.js:110-112 | an empty value matches every username, and a matching value is no longer than the username |
| Search.EmailMatches | src/js/index.js:113-115 | an empty value matches every email, and a matching value is no longer than the email |
| Search.ByUsername | src/js/index.js:110-112 | exactly the entries whose username matches, without duplicates when the input has none |
| Search.ByEmail | src/js/index.js:113-115 | exactly the entries whose email matches, without duplicates when the input has none |
| Search.Dedup | src/js/index.js:117 | `[...new Set(s)]` holds the same elements as `s`, each once, and leaves a list without duplicates unchanged |
| Search.DedupFrom | src/js/index.js:117 | `[...new Set(s)]` from a given seen set holds exactly the unseen elements of `s`, each once |
| Search.DedupFromAppend | src/js/index.js:116-117 | de-duplicating a concatenation de-duplicates the first part, then the second part minus what the first holds |
| Search.DedupFromNoDup | src/js/index.js:117 | on a list without duplicates, de-duplication only drops the already-seen elements, order kept |
| Search.DedupFromFresh | src/js/index.js:117 | a list without duplicates, none of them seen, passes through de-duplication unchanged |
| Search.EmailOnlyStep | src/js/index.js:113-117 | dropping the username matches from the email matches leaves the email-only matches, in order |
| Search.SearchUser | src/js/index.js:101-118 | an empty value gives a copy of `users`; a non-empty value gives exactly the previous `filteredUsers` entries whose lower-cased username or email contains the lower-cased value, each once |
| Search.SearchCaseInsensitive | src/js/index.js:110-117 | two search values that lower-case alike give the same new `filteredUsers` |
| Search.SearchOrder | src/js/index.js:110-117 | for a previous list without duplicates, a non-empty search lists the username matches in order, then the email-only matches in order |
| Filters.FilterTable.Get | src/js/index.js:287-288 | `filters[f]` of a well-formed table is the entry named `f` |
| Filters.FilterTable.Set | src/js/index.js:287-288 | writing the entry of one field changes that entry only |
| Filters.ActiveFilters | src/js/index.js:35-36 | the active entries in declaration order: registration date first, then rating |
| Filters.IsClearBtnShown | src/js/index.js:43 | the clear button shows exactly when some filter is active or the search string is non-empty |
| Filters.InitialFiltersInactive | src/js/index.js:14-25 | the start-up table is well formed and has no active filter |
| Filters.Deactivated | src/js/index.js:142-146 | after `diactivateSortFilters` no filter is active and each keeps its direction |
| Filters.Clicked | src/js/index.js:286-288 | after a click on field `f`, `f` is the only active filter with its direction negated, and the other filter is inactive with its direction unchanged |
| Filters.ClickTwice | src/js/index.js:286-288 | clicking the same button twice restores its direction and leaves it the only active filter |
| Sorting.Compare | src/js/index.js:128-134 | the comparator is zero exactly for equal keys; it is negative exactly when `a` has the smaller key with `isIncreases` unset, and the larger key with it set |
| Sorting.SortedByOrder | src/js/index.js:127-134 | sorted by the comparator with `isIncreases` unset means ascending keys; with it set, descending keys |
| Sorting.FirstBefore | src/js/index.js:128-134 | the first element of a sorted list may stand before every element |
| Sorting.Insert | src/js/index.js:128-134 | one insertion step adds exactly one element and keeps the multiset otherwise |
| Sorting.InsertSorted | src/js/index.js:128-134 | inserting into a sorted list keeps it sorted |
| Sorting.InsertWithKey | src/js/index.js:128-134 | inserting puts the element in front of its key's elements and leaves every other key's elements as they were |
| Sorting.SortBy | src/js/index.js:128-134 | the sorted list is a permutation of the input, sorted by the comparator |
| Sorting.SortByNoDup | src/js/index.js:128-134 | sorting keeps a list without duplicates without |
| Sorting.SortByStable | src/js/index.js:128-134 | the sort is stable: the elements of every key keep their relative order |
| Sorting.SortedUnique | src/js/index.js:128-134 | two lists sorted by the same comparator whose elements agree key by key, in order, are equal |
| Sorting.SortByIsTheStableSort | src/js/index.js:128-134 | any sorted list that keeps the key-by-key order of the input equals `SortBy`, so every stable `Array.prototype.sort` gives the same list |
| Sorting.SortAll | src/js/index.js:125-137 | sorting once per active filter keeps the multiset and the length |
| Sorting.SortAllNoDup | src/js/index.js:125-137 | sorting once per active filter keeps a list without duplicates without |
| Sorting.SortAllWithin | src/js/index.js:125-137 | a duplicate-free view drawn from a list stays duplicate-free and inside it after the sorts |
| Sorting.SortAllOne | src/js/index.js:125-137 | with one active filter the result is that filter's stable sort: sorted by it, each key's elements in their old order |
| Pagination.ClampIndex | src/js/index.js:202 | `slice`'s index is clamped into range, and an in-range index is kept |
| Pagination.Slice | src/js/index.js:202 | `slice(start, end)` is `s[start..min(end, len)]` in range and empty past the end |
| Pagination.CutUsersByPage | src/js/index.js:199-203 | the page holds at most five rows; it is `data[(p-1)*5 .. min(p*5, len)]` when it starts inside the list, and empty when it starts past the end |
| Pagination.PageCount | src/js/index.js:168-169 | the button count is the ceiling of `len / 5`, and zero exactly for an empty list |
| Pagination.PastLastPageEmpty | src/js/index.js:199-203 | a page past the last button shows no rows |
| Pagination.PagesPrefix | src/js/index.js:199-203 | pages 1 to `k`, laid end to end, are the first `5k` rows |
| Pagination.AllPagesReconstruct | src/js/index.js:165-203 | all pages laid end to end give back the whole list |
| Pagination.PageCountAfterRemoval | src/js/index.js:168-169 | deleting one row drops a button exactly when that row was alone on the last page |
| Pagination.CurrentMark | src/js/index.js:184-187 | at most one button is current, and one is current exactly when `selectPage` names a button |
| Pagination.CreatePagination | src/js/index.js:165-187 | the buttons are numbered 1 to the page count, and the current mark is on the one equal to `selectPage` |
| Removal.HasId | src/js/index.js:227 | `obj.id === id`: a `null` id matches no entry, and a match has exactly that id |
| Removal.FindIndex | src/js/index.js:226-228 | `findIndex` gives the first index whose id matches, or -1 exactly when none does |
| Removal.RemoveObjectWithId | src/js/index.js:225-235 | with no matching id the array is unchanged; otherwise exactly the first match is removed, the others keep their order, and the length drops by one |
| Removal.RemoveDropsId | src/js/index.js:225-235 | with unique ids, no entry with the removed id remains |
| Removal.RemoveKeepsOthers | src/js/index.js:225-235 | every entry with another id stays, and unique ids and absence of duplicates are kept |
| Removal.RemoveFromBoth | src/js/index.js:309-310 | removing the id from both lists keeps `filteredUsers` inside `users`, ids unique and the view without duplicates |
| View.ViewState.constructor | src/js/index.js:8-25 | the start-up state: empty lists and search, page 1, no selected id, dialog closed, no active filter |
| View.ViewState.Load | src/js/index.js:60-69 | both lists become the loaded data, and the first page and its buttons are drawn from it |
| View.ViewState.SortFilter | src/js/index.js:125-137 | `filteredUsers` becomes its sort by every active filter in order: a permutation, unchanged with no active filter, and that filter's stable sort with one |
| View.ViewState.UpdateTable | src/js/index.js:89-94 | re-sorts `filteredUsers`, then renders the current page's rows, the page buttons and the clear-button state |
| View.ViewState.SearchUser | src/js/index.js:101-118 | records the value, returns to page 1 and sets `filteredUsers` to the search result |
| View.ViewState.OnSearchInput | src/js/index.js:279-282 | search then refresh; `users`, the filters, the selected id and the dialog are untouched |
| View.ViewState.DeactivateSortFilters | src/js/index.js:142-146 | the loop over the entries leaves every filter inactive with its direction kept |
| View.ViewState.ToggleFilter | src/js/index.js:286-288 | the three flag writes of a sort-button click give the clicked table |
| View.ViewState.OnFilterClick | src/js/index.js:284-293 | the clicked field becomes the only active filter with its direction negated, and `filteredUsers` becomes its stable sort by that field and direction |
| View.ViewState.OnClear | src/js/index.js:295-300 | every filter is deactivated and `filteredUsers` is a copy of `users`; `search` and `selectPage` are untouched |
| View.ViewState.OnPageClick | src/js/index.js:189-192 | `selectPage` becomes the clicked button's number, and the view is refreshed |
| View.ViewState.OpenModal | src/js/index.js:217-220 | remembers the row's id and opens the dialog |
| View.ViewState.OnCloseModal | src/js/index.js:302-305 | closes the dialog and forgets the id |
| View.ViewState.DeleteSelected | src/js/index.js:309-310 | removes the selected id from both lists, and no entry of the view keeps that id |
| View.ViewState.OnConfirmDelete | src/js/index.js:307-312 | closes the dialog, removes the selected id from both lists and re-sorts; the selected id, search, page and filters are kept |

## Left out

- The `fetch` request, JSON decoding and the `console.log` error path (`src/js/index.js:58-72`) are network I/O. `Load` takes the decoded list as a parameter.
- Converting `registration_date` to a `Date` and `toLocaleDateString` are left out. Dates are integer timestamps, which is what the comparator's subtraction yields.
- The DOM work is left out:
  - creating and appending nodes;
  - `innerHTML`;
  - `classList`;
  - `style.display`;
  - registering listeners;
  - `clearTable` and `clearPagination`.

  The rows, the buttons and the clear-button flag `updateTable` would draw are returned as a `Rendered` value.
- `toLowerCase` is modelled as ASCII lower-casing. Unicode case mapping is not modelled.
- The `Array.prototype.sort` algorithm is left out. The model uses a stable insertion sort, and `SortByIsTheStableSort` shows that any stable sort with the same comparator gives the same list.
- `sortFilter` is modelled on a sequence field. Sorting the array in place, and the array splice of `removeObjectWithId`, reassign the field instead. No other reference to these arrays exists, because every other assignment of them copies (`[...users]`, `[...data]`).
- `[...new Set(list)]` is modelled with value equality. In the program it uses object identity. The two agree because `Valid()` keeps ids unique, so distinct objects are distinct values.
- View.ViewState.Load requires unique ids in the loaded data. The program does not check this; the invariant relies on it.
- View.ViewState.OnPageClick requires the clicked number to name a button of the last render, `1 <= n <= PageCount(|filteredUsers|)`. Those are the only ids the page buttons carry.
- View.ViewState.OpenModal takes the row's id as a parameter.
  - The program reads it from the clicked element.
  - A click on the button's icon rather than the button itself yields an empty id, which matches no row.
- The page count uses integer arithmetic, `(n + 4) / 5`, for the float `Math.ceil(n / 5)`. They agree for every list length.
- The highlight class on the clicked sort button (`active-btn`) is view state only and is not modelled.
