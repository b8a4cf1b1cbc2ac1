# Infinite item list: a verified model of the list engine

The system serves a list of one million generated records (`id`, `name`,
`description`, `value`) to a React table. The table supports infinite
scrolling, an id search, column sorting, a drag-and-drop custom order and
multi-selection. This project models three parts of it in Dafny and proves
what they promise:

- **The server's item engine** (`ItemServer`, `item_store.dfy`). The class
  `ItemStore` holds the record store, the selection set, the custom order and
  the search cache. Its methods are the list API's handlers:
  - lazy generation of the data set;
  - the paged, searchable, custom-ordered query;
  - order update, selection replace, batch select/deselect/toggle;
  - state snapshot and reset;
  - the periodic cache sweep.

  A refused request (HTTP 400) is an `Err` carrying a `Failure`.
- **The client hook's list logic** (`UseItems`, `use_items.dfy`):
  - the custom-order sort and the column sort applied to loaded records;
  - the appending of a fetched page;
  - single and select-all selection updates;
  - the filtering of a dragged order.
- **The sort header** (`App`, `app.dfy`): the column-click transition on
  `(sortBy, sortOrder)`.

Two modules are shared:
- `Records` (`records.dfy`) holds the record type, `Option`/`Result`, the
  decimal rendering of ids and the substring test of the search.
- `Ordering` (`ordering.dfy`) holds the filter (`Select`) and the stable sort
  by an integer key (`StableSort`). It proves the sort's properties: it
  permutes its input, sorts it, is stable, commutes with filtering and is
  idempotent. It also holds the rank map of the custom order and the key
  that stands for the rank comparator.

Main facts proved:
- A query's page is always the slice of the list that recomputing the search
  would give, whether it came from the cache or not.
- The cache stays coherent with the store and the order. This holds even
  though an empty-search query sorts the store array in place.
- The custom order puts ranked ids first by their last position in the
  order, and keeps unranked ones after them in store order.
- Pages tile the list.
- The id-validated mutations are all-or-nothing.
- A toggle batch flips each id once per occurrence.
- On distinct values, a descending column sort is the ascending one reversed.
- Two clicks on the sorted column restore the header state.

JavaScript's `Array.prototype.sort` with a comparator `key(a) - key(b)` is
stable. It is modelled as a stable insertion sort by `key`. Two lemmas
connect each source comparator to such a key:
`Ordering.OrderKeyAgreesWithComparator` for the custom order, including
`Infinity` for ids outside the order, and
`UseItems.NumericComparatorIsKeyDifference` for the numeric columns.

Where the code differs from the intended design, the model follows the code,
except for the range check on `page` and `limit` (see Findings):
- A cache hit is not checked against the 30-second TTL. Only the sweep looks
  at an entry's age.
- The search is matched case-sensitively, without trimming, against the id's
  decimal string only.
- The server never reads `sortBy`/`sortOrder`. Its only ordering is the
  custom order. Column sorting happens on the client.
- The cache key is the search plus the current custom order. It is not a
  normalized search plus sort field and direction.

## Model

| member | source | states |
|---|---|---|
| ItemServer.ItemStore.constructor | server/index.js:15-19 | Empty store, empty selection, empty order and empty cache, with the invariant established. |
| ItemServer.ItemStore.GenerateItems | server/index.js:22-41 | Generates only when the store is empty. The store becomes records 1..N and the order their ids. Otherwise nothing changes. The invariant is kept. |
| ItemServer.BuildItems | server/index.js:25-35 | The generation loop produces exactly `Generated(values)`. |
| ItemServer.Generated | server/index.js:28-35 | One record per draw; position k holds record k + 1 with draw k as its value. |
| ItemServer.MakeRecord | server/index.js:29-34 | A generated record carries its id and its draw as value, and its name ends with the id's decimal string. |
| ItemServer.GeneratedIds | server/index.js:28-38 | Generated ids are 1..N in order. The id set is exactly 1..N. |
| ItemServer.GeneratedRecords | server/index.js:29-34 | Record k has id k + 1, the name and description built from its id, and a value in [0, 1000). |
| ItemServer.ItemStore.GenerateIsIdempotent | server/index.js:22-23 | Generating a second time changes neither store nor order. |
| ItemServer.ItemStore.Query | server/index.js:58-136 | Generates first. A request failing the corrected range check `ValidRequest` (NaN included) is refused with nothing cached. Otherwise the page is `Paginate` of the list recomputation gives, hit or miss. The store is reordered only for an empty search. Only a non-empty search missing from the cache adds an entry, keyed by search and current order. The invariant is kept. |
| ItemServer.ItemStore.Filtered | server/index.js:73-118 | Serves a cached list or filters, sorts and caches. The result equals the recomputed list. With an empty search the store itself is sorted. The cache and invariant are updated as the query states. |
| ItemServer.ItemStore.SortStore | server/index.js:92-108 | With an empty search the store array itself is sorted by the custom order: the store becomes `Arrange` of itself, the cache is untouched and stays coherent. |
| ItemServer.ItemStore.FilterAndCache | server/index.js:87-117 | A non-empty search missing from the cache is filtered and sorted into the recomputed list and stored under (search, order); the store is unchanged and the cache stays coherent. |
| ItemServer.PassesRangeCheck | server/index.js:62-71 | The range check as written on `parseInt` results, where every comparison with NaN is false. For numeric page and limit it accepts exactly page >= 1 and 1 <= limit <= 1000; a NaN page with a NaN limit passes. |
| ItemServer.ValidRequest | server/index.js:62-71 | The corrected check the query applies: a request it accepts has numeric page and limit within `ValidPagination`. |
| ItemServer.NaNPassesRangeCheck | server/index.js:62-71 | The written check passes a NaN page exactly when the limit is in 1..1000, a NaN limit exactly when the page is at least 1, and a NaN page with a NaN limit. The intended check refuses every NaN. |
| ItemServer.ValidRequestIsRange | server/index.js:67-71 | The intended check accepts exactly numeric page >= 1 and 1 <= limit <= 1000. It differs from the written one only on NaN. |
| ItemServer.SearchFilter | server/index.js:87-93 | Exactly the store records whose decimal id contains the search, each as often as in the store, kept as a subsequence in store order. |
| Records.IdMatches | server/index.js:89-91 | A record matches when `id.toString()` includes the search. No other field is consulted. |
| Records.IncludesAt | server/index.js:90 | `includes` holds exactly when some position starts a contiguous copy of the search. |
| Records.NatToDecimal | server/index.js:90 | The decimal string is non-empty, all digits, with no leading zero except for 0. |
| Records.IntToDecimal | server/index.js:90 | Non-empty. It starts with a digit exactly for non-negative numbers. |
| Records.DecimalRoundTrip | server/index.js:90 | Reading the decimal string back gives the number. |
| Records.IntToDecimalInjective | server/index.js:90 | Different ids render to different strings. |
| Records.SearchMatchesExample | server/index.js:87-91 | "123" matches ids 123, 1230, 1231 and 2123. |
| Records.SearchRejectsExample | server/index.js:87-91 | "123" does not match 132 or 1213. |
| ItemServer.Arrange | server/index.js:98-108 | The ordering step keeps the filtered list's length; `ArrangeKeepsIds` proves it is a permutation. |
| ItemServer.Expected | server/index.js:86-108 | The list a query pages through is no longer than the store, and as long as the store for an empty search; `ExpectedContents` states its contents. |
| ItemServer.ArrangeIsStableSort | server/index.js:99-108 | Skipping the sort for an empty order is the same as sorting by the (constant) rank key. |
| ItemServer.ExpectedContents | server/index.js:86-108 | The list holds exactly the matching store records with their multiplicities. It is sorted by rank. Within each rank it keeps the filtered order. |
| ItemServer.ArrangedStoreKeepsExpected | server/index.js:93-108 | Sorting the store by the current order leaves every query's list under that order unchanged. |
| ItemServer.ArrangeKeepsIds | server/index.js:93-103 | The in-place sort keeps the store's multiset of records and its id set. |
| ItemServer.CoherentAfterArrange | server/index.js:81-117 | The in-place sort of the store keeps every cached entry equal to its recomputation. |
| ItemServer.CoherentAfterStore | server/index.js:111-117 | Storing a freshly computed non-empty search keeps the cache coherent. |
| ItemServer.CoherentSubmap | server/index.js:50-53 | Removing entries keeps the cache coherent. |
| ItemServer.Window | server/index.js:121 | `slice(start, start + limit)`: its length and each element, clamped to the list. |
| ItemServer.Offset | server/index.js:64 | The start index is `(page - 1) * limit` and is non-negative. |
| ItemServer.Paginate | server/index.js:121-122 | At most `limit` records, the i-th being `filtered[start + i]`, with the clamped length. `hasMore` iff `start + limit < total`. `total` is the list's length. |
| ItemServer.PagesTile | server/index.js:121-122 | Pages 1..n concatenated are exactly the first n * limit records. |
| ItemServer.LastPageCompletes | server/index.js:121-122 | Once `hasMore` is false, pages 1..page hold the whole list. |
| ItemServer.InvalidIds | server/index.js:152-153 | The unknown ids in request order, each as often as in the request (duplicates kept). It is empty exactly when every id exists. |
| ItemServer.ItemStore.UpdateOrder | server/index.js:140-180 | A missing body is refused. Any unknown id refuses the update, order and cache unchanged, and reports the unknown ids. Otherwise the order becomes the input, the cache is emptied and the count is the input length. |
| ItemServer.ItemStore.ReplaceSelection | server/index.js:183-219 | All-or-nothing. On success the selection is the set of the input ids and the count is the input length, not the set size. |
| ItemServer.ItemStore.Batch | server/index.js:222-279 | A missing action/ids or any unknown id is refused unchanged. `select` adds all ids, `deselect` removes all and `toggle` applies `ToggleAll`. An unknown action is refused with the selection unchanged. The count is the resulting set size. |
| ItemServer.ItemStore.AddEach | server/index.js:245 | The `select` loop adds exactly the listed ids. |
| ItemServer.ItemStore.RemoveEach | server/index.js:248 | The `deselect` loop removes exactly the listed ids. |
| ItemServer.ItemStore.ToggleEach | server/index.js:250-257 | The `toggle` loop flips each id in request order. |
| ItemServer.Flip | server/index.js:252-256 | One toggle: the id changes membership and no other id does. |
| ItemServer.ToggleAll | server/index.js:250-257 | The toggles of a batch in request order; ids not in the batch keep their membership. |
| ItemServer.ToggleAllParity | server/index.js:250-257 | After a toggle batch an id is selected iff its starting membership differs from "it occurs an odd number of times". |
| ItemServer.ToggleTwiceCancels | server/index.js:250-257 | An id listed twice ends where it started. |
| ItemServer.ToggleAllWithin | server/index.js:250-257 | A toggle batch selects nothing outside the old selection and the listed ids. |
| ItemServer.ItemStore.GetState | server/index.js:282-289 | The snapshot reports selection, order, store size and selection size. All reported ids exist in the store. |
| ItemServer.ItemStore.Reset | server/index.js:292-320 | The selection is cleared unless preserved. The order becomes the ids of the current store sequence unless preserved. The cache is always emptied. The reply echoes both flags. |
| ItemServer.IdsWithin | server/index.js:301 | An order rebuilt from the store names only store ids. |
| ItemServer.ItemStore.Sweep | server/index.js:48-55 | The cache becomes exactly its unexpired part. The invariant is kept. |
| ItemServer.ItemStore.DropExpired | server/index.js:50-54 | The delete-while-iterating loop removes exactly the entries older than 30000 ms and keeps the rest unchanged. |
| ItemServer.Unexpired | server/index.js:50-52 | An entry is kept iff `now - timestamp <= 30000`. Kept entries are unchanged. |
| ItemServer.SweepsCompose | server/index.js:48-55 | A sweep at t1 followed by one at t2 >= t1 equals a sweep at t2. Sweeping is idempotent. |
| Ordering.Select | server/index.js:89-91 | A filter: no longer than its input; keeps exactly the elements satisfying the predicate. |
| Ordering.SelectCounts | server/index.js:89-91 | A filter keeps every copy of a passing element and no copy of a failing one. |
| Ordering.SelectIsSubsequence | server/index.js:89-91 | A filter keeps relative order. |
| Ordering.SelectAppend | server/index.js:89-91 | Filtering distributes over concatenation. |
| Ordering.SelectAll | client/src/hooks/useItems.js:309-311 | A filter every element passes returns its input. |
| Ordering.Insert | client/src/hooks/useItems.js:71-75 | One insertion step of the stable sort: the result is one element longer than the list it inserts into. |
| Ordering.StableSort | server/index.js:103-107 | The stable sort by a key keeps the length of its input; its other properties are the lemmas below. |
| Ordering.StableSortPermutes | server/index.js:103-107 | The sort returns a permutation of its input. |
| Ordering.StableSortSorts | server/index.js:103-107 | The sort's output is ordered by the key. |
| Ordering.StableSortIsStable | server/index.js:103-107 | Records with equal keys keep their input order. |
| Ordering.SortedIsFixpoint | server/index.js:103-107 | Sorting an already ordered list changes nothing. |
| Ordering.StableSortIdempotent | server/index.js:103-107 | Sorting twice is sorting once. |
| Ordering.SelectCommutesWithSort | server/index.js:87-107 | Filtering then sorting equals sorting then filtering. |
| Ordering.SortedPermutationUnique | client/src/hooks/useItems.js:95-115 | Two ordered permutations of a list with distinct keys are equal. |
| Ordering.SortByNegatedKeyIsReverse | client/src/hooks/useItems.js:93-107 | With distinct keys, sorting by the negated key gives the reverse. |
| Ordering.RankMap | server/index.js:100-101 | Maps exactly the ids of the order, each to the last index where it occurs. |
| Ordering.BuildRankMap | server/index.js:100-101 | The `forEach` loop builds exactly `RankMap(order)`. |
| Ordering.RankOf | server/index.js:104-105 | An id has a finite rank exactly when the order map holds it, and that rank is its index in the map; otherwise `Infinity`. |
| Ordering.CompareRanks | server/index.js:104-106 | `orderA - orderB`: zero exactly for equal ranks, negative exactly when the first is finite and before the second (or the second is `Infinity`), positive in the mirror case. |
| Ordering.OrderKeyAgreesWithComparator | server/index.js:103-107 | The integer rank key has the sign of `orderA - orderB`, including `Infinity` and `Infinity - Infinity` treated as equal. |
| Ordering.CustomSortRankedFirst | server/index.js:99-108 | A ranked record is preceded only by ranked records of no greater rank. |
| Ordering.RankMapExample | server/index.js:100-101 | The order [5, 3, 1] ranks 5, 3, 1 as 0, 1, 2. |
| Ordering.CustomOrderExample | server/index.js:99-108 | Ids 1..5 under the order [5, 3, 1] come out as 5, 3, 1, 2, 4. |
| UseItems.CustomSorted | client/src/hooks/useItems.js:65-76 | Pass-through when the order or the list is empty. Otherwise a permutation of the input ordered by rank. |
| UseItems.ApplyCustomSorting | client/src/hooks/useItems.js:65-76 | Builds the rank map by its loop and sorts a copy, giving `CustomSorted`. |
| UseItems.CustomSortedIsStable | client/src/hooks/useItems.js:71-75 | Records of equal rank, and all unranked records, keep their input order. |
| UseItems.CustomSortedRankedFirst | client/src/hooks/useItems.js:68-75 | A ranked record is preceded only by ranked records of no greater rank, so unranked records are last. |
| UseItems.ResortingSortedPageIsIdentity | client/src/hooks/useItems.js:137-140 | Re-sorting a page that is already in custom order changes nothing. |
| UseItems.Coerce | client/src/hooks/useItems.js:99-106 | A number stays itself; an undefined/empty value and NaN become 0. |
| UseItems.Direction | client/src/hooks/useItems.js:93 | -1 exactly for `desc`, else 1. |
| UseItems.NumericField | client/src/hooks/useItems.js:96-104 | Only `id` and `value` give a number; any other column gives no value, never NaN. |
| UseItems.CompareNumeric | client/src/hooks/useItems.js:104-108 | The numeric comparator is zero exactly for equal coerced values; negative exactly for a smaller first value ascending, a larger one descending. |
| UseItems.NumericComparatorIsKeyDifference | client/src/hooks/useItems.js:104-108 | The comparator is the key difference. Ascending compares the values. `desc` negates the comparison. |
| UseItems.TextKey | client/src/hooks/useItems.js:109-114 | Records with the same text in the column get the same key, so the stable sort keeps their order. |
| UseItems.FieldKey | client/src/hooks/useItems.js:95-114 | For `id`/`value` the key difference is exactly the numeric comparator; for any other column equal text gives an equal key. |
| UseItems.ApplySorting | client/src/hooks/useItems.js:79-116 | The result is always a permutation of the input. |
| UseItems.ApplySortingCases | client/src/hooks/useItems.js:80-90 | An empty list or a non-empty search gives the input. `custom` with an order gives the custom sort. Every other case gives the column sort. |
| UseItems.NumericSortOrders | client/src/hooks/useItems.js:93-108 | For `id`/`value`, values ascend for `asc` (or any word but `desc`) and descend for `desc`. |
| UseItems.DescendingReversesAscending | client/src/hooks/useItems.js:93-108 | On distinct values, the `desc` result is the `asc` result reversed. |
| UseItems.UnknownColumnKeepsOrder | client/src/hooks/useItems.js:96-114 | A column no record has leaves the list in loaded order. |
| UseItems.ResetSorting | client/src/hooks/useItems.js:337-340 | The sort becomes ascending by id. |
| UseItems.ResetShowsGeneratedOrder | client/src/hooks/useItems.js:337-340 | After a reset the generated list shows in its own order. |
| UseItems.ProcessReceived | client/src/hooks/useItems.js:135-140 | A page is re-sorted only for `custom` with an order and no search, always as a permutation. When re-sorted it is ordered by rank, and records of equal rank keep their received order. |
| UseItems.AppendPage | client/src/hooks/useItems.js:142-159 | Page 1 or a new search replaces the list. A later page keeps the loaded list as a prefix and appends exactly the received records with unloaded ids, each as often as received, in received order. |
| UseItems.AppendKeepsIdsDistinct | client/src/hooks/useItems.js:146-159 | If the loaded ids and the page's ids are distinct, the result's ids are distinct. |
| UseItems.SelectKeepsDistinct | client/src/hooks/useItems.js:147-149 | Filtering keeps ids distinct. |
| UseItems.Falsy | client/src/hooks/useItems.js:256 | `!id` holds exactly for no id or the id 0. |
| UseItems.Toggled | client/src/hooks/useItems.js:255-267 | A falsy id leaves the selection unchanged. Any other id flips its own membership and nothing else. |
| UseItems.ToggleTwiceRestores | client/src/hooks/useItems.js:261-267 | Toggling the same id twice restores the selection. |
| UseItems.ToggleSelection | client/src/hooks/useItems.js:255-279 | The copy-then-delete-or-add gives `Toggled`. |
| UseItems.VisibleApplied | client/src/hooks/useItems.js:282-293 | Every visible id is selected iff `selectAll`. Every other id is untouched. |
| UseItems.SelectAllIdempotent | client/src/hooks/useItems.js:282-293 | Repeating a select-all or deselect-all changes nothing more. |
| UseItems.ToggleSelectAll | client/src/hooks/useItems.js:281-301 | The copy-then-`forEach` loop gives `VisibleApplied`. |
| UseItems.FilterOrder | client/src/hooks/useItems.js:303-320 | A non-array input leaves the order unchanged. Otherwise the result is a subsequence of the input containing exactly its loaded ids, each as often as in the input. |
| UseItems.FilterOrderKeepsValid | client/src/hooks/useItems.js:309-311 | An order made only of loaded ids is kept intact. |
| UseItems.ServerAcceptsFilteredOrder | client/src/hooks/useItems.js:309-311 | If the loaded records come from the server's store, the server's id check accepts the filtered order. |
| App.HandleSort | client/src/App.js:26-33 | The sorted column becomes the clicked one and the direction is `asc` or `desc`. On the same column `asc` becomes `desc` and any other stored direction becomes `asc`. A new column starts `asc`. |
| App.UnknownOrderClickAscends | client/src/App.js:27-28 | A stored direction `ASC` on the sorted column becomes `asc` on a click. |
| App.DoubleClickRestores | client/src/App.js:27-28 | Two clicks on the sorted column restore a valid state. |
| App.NewColumnTwiceDescends | client/src/App.js:26-33 | Two clicks on a new column sort it descending. |
| App.ClickIdAfterReset | client/src/App.js:26-33 | After a reset, a click on `id` sorts descending by id. |
| App.ClickAgainReverses | client/src/App.js:27-28 | With distinct values and no search, re-sorting the same loaded list after a second click on the sorted numeric column gives its reverse. The page-1 reload the click also triggers is not part of this lemma. |

## Left out

- HTTP transport, JSON bodies and the Express routing are not modelled. A handler takes its body fields as parameters; a missing or non-array field is `None`, and a missing batch action is `""`. The reset flags `preserveSelection` and `preserveOrder` are reduced to booleans (the JSON value's truthiness); the reply echoes those booleans, not the raw values.
- Query-string parsing is reduced to its result. `parseInt` with the defaults 1 and 20 becomes a `Parsed` value, an integer or NaN. Truncation of text such as `"2abc"` to 2 is not modelled.
- `Date.now()` and the 60-second timer are parameters. The query takes `now`, and the sweep is a method `Sweep(now)` the caller runs.
- `Math.random` is a parameter. The store is built from a sequence of one million draws, each in [0, 1000).
- The cache key string `search + "-" + JSON.stringify(itemOrder)` is modelled as the pair (search, order). Both tell apart the same combinations, since the order's JSON holds the last `[` of the key.
- ItemServer.ItemStore.Query: applies the corrected range check `ValidRequest` from the Findings row. It refuses a NaN page with a limit in 1..1000, or a NaN limit with a page of at least 1, where the code as written answers 200 with an empty page and `hasMore` false after filtering, sorting in place and caching.
- Exceptions and the HTTP 500 paths are not modelled.
- Logging is not modelled.
- The 404 handler and the error middleware are not modelled.
- `Array.from` of a set is not modelled. The snapshot reports the selection as a set, and a set's iteration order is not modelled.
- Ids are integers in the model, so `undefined`/`null` ids and ids of other JSON types are not modelled. The client's null-id filters are therefore always true, and `visibleIds` is all ids of the visible list.
- Records.IntToDecimal: renders integers as plain decimals only, because `toString` switches to exponent form only at 10^21, far above the generated ids.
- UseItems.TextKey: the string branch of the column sort (`toLowerCase` and `localeCompare`) is a parameter `collate` that ranks strings. It stands for an abstract total preorder, because locale collation is outside the model.
- UseItems.Coerce: a numeric string in an `id`/`value` column is not parsed. Those columns always hold numbers in the records modelled.
- React state, effects, `useCallback`, the debounce, the `loadItems` re-entrancy guard and async interleavings are not modelled. Each client operation maps the previous state value to the next.
- The state bootstrap on mount is not modelled.
- `localStorage` reads and writes, including `clearAllStorage`, are not modelled.
- The API calls the selection and order handlers make are not modelled.
- `client/src/services/api.js` is not part of this model. It is an HTTP client that drops `sortBy` and `customOrder`.
- The infinite-scroll hook is not part of this model.
- The table components are not part of this model. They are drag-and-drop and rendering code.
- The webpack configuration is not part of this model.

## Findings

| source | as written | input that shows it | evidently intended | confidence | as-written member | corrected member |
|---|---|---|---|---|---|---|
| server/index.js:62-71 | `parseInt` gives NaN for a non-numeric `page` or `limit`. Every comparison with NaN is false, so the range check lets the request through whenever the other parameter is in range. The query then slices from a NaN start instead of answering 400. | `GET /api/items?page=abc` or `?limit=abc` | refuse the request like any out-of-range page or limit | not executed | ItemServer.NaNPassesRangeCheck | ItemServer.ValidRequestIsRange |
