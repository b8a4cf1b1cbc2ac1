/** The server's in-memory item engine: the record store, the custom order,
    the selection and the search cache, with the handlers of the list API as
    methods. An HTTP 400 answer is an `Err` carrying a `Failure`; a success
    answer is the `Ok` value. */
module ItemServer {
  import opened Records
  import opened Ordering

  /** Age in milliseconds beyond which the sweep drops a cache entry. */
  const CacheTtl: int := 30000

  /** The largest page size a query accepts. */
  const MaxLimit: int := 1000

  /** How many records the generator creates. */
  const ItemCount: int := 1000000

  /** Generated values lie in [0, ValueBound): `Math.floor(Math.random() * 1000)`. */
  const ValueBound: int := 1000

  /** A cached search: the filtered, ordered records, their count and the
      time the entry was written. */
  datatype Entry = Entry(filtered: seq<Record>, total: nat, timestamp: int)

  /** The cache key: the search text and the custom order at query time. */
  type CacheKey = (string, seq<int>)

  /** The body of a successful `GET /api/items`. */
  datatype Page = Page(items: seq<Record>, total: nat, hasMore: bool, page: int, limit: int)

  /** Why a request is refused. */
  datatype Failure =
    | BadPagination          // page or limit out of range
    | BadFormat              // missing or non-array body field, or missing action
    | UnknownIds(ids: seq<int>)  // ids absent from the store, in request order
    | UnknownAction          // batch action other than select, deselect, toggle

  /** The body of `GET /api/state`. */
  datatype Snapshot = Snapshot(selectedItems: set<int>, itemOrder: seq<int>, totalItems: nat, selectedCount: nat)

  /** The body of a successful `POST /api/state/reset`. */
  datatype ResetReply = ResetReply(preservedSelection: bool, preservedOrder: bool)

  /** The set of ids listed in a sequence. */
  function Members(ids: seq<int>): set<int>
  {
    set id | id in ids
  }

  lemma MembersEmpty(ids: seq<int>)
    ensures Members(ids) == {} <==> ids == []
  {
    if ids != [] {
      assert ids[0] in Members(ids);
    }
  }

  lemma MembersSnoc(ids: seq<int>, i: nat)
    requires i < |ids|
    ensures Members(ids[..i + 1]) == Members(ids[..i]) + {ids[i]}
  {
    assert ids[..i + 1] == ids[..i] + [ids[i]];
  }

  /** The order rebuilt from a store lists only ids of that store. */
  lemma IdsWithin(items: seq<Record>)
    ensures Members(Ids(items)) <= IdSet(items)
  {
    forall id | id in Members(Ids(items)) ensures id in IdSet(items) {
      var k :| 0 <= k < |items| && Ids(items)[k] == id;
      assert items[k] in items;
    }
  }

  // ---------------------------------------------------------------------------
  // Generation of the data set.

  /** Record number `i` of the generated data set. */
  function MakeRecord(i: int, value: int): (r: Record)
    ensures r.id == i && r.value == value
    ensures |IntToDecimal(i)| <= |r.name| && r.name[|r.name| - |IntToDecimal(i)|..] == IntToDecimal(i)
  {
    Record(i, "Элемент " + IntToDecimal(i), "Описание элемента " + IntToDecimal(i), value)
  }

  /** The generated data set, one record per drawn value: position k holds id k + 1. */
  function Generated(values: seq<int>): (items: seq<Record>)
    ensures |items| == |values|
    ensures forall k :: 0 <= k < |values| ==> items[k] == MakeRecord(k + 1, values[k])
  {
    if values == [] then []
    else Generated(values[..|values| - 1]) + [MakeRecord(|values|, values[|values| - 1])]
  }

  /** The generator's loop. */
  method BuildItems(values: seq<int>) returns (items: seq<Record>)
    ensures items == Generated(values)
  {
    items := [];
    var i := 1;
    while i <= |values|
      invariant 1 <= i <= |values| + 1
      invariant items == Generated(values[..i - 1])
    {
      assert values[..i][..i - 1] == values[..i - 1];
      items := items + [MakeRecord(i, values[i - 1])];
      i := i + 1;
    }
    assert values[..|values|] == values;
  }

  /** The generated ids are 1..N in order, so they are distinct. */
  lemma GeneratedIds(values: seq<int>)
    ensures forall k :: 0 <= k < |values| ==> Ids(Generated(values))[k] == k + 1
    ensures forall id :: id in IdSet(Generated(values)) <==> 1 <= id <= |values|
  {
    var g := Generated(values);
    forall k | 0 <= k < |values|
      ensures Ids(g)[k] == k + 1
    {
      assert g[k].id == MakeRecord(k + 1, values[k]).id;
    }
    forall id | 1 <= id <= |values|
      ensures id in IdSet(g)
    {
      assert g[id - 1].id == id;
      assert g[id - 1] in g;
    }
  }

  /** The draws the generator can make: one per record, each in [0, ValueBound). */
  predicate ValidDraws(values: seq<int>)
  {
    |values| == ItemCount && forall v | v in values :: 0 <= v < ValueBound
  }

  /** Every generated record has its id's name and description and a value in range. */
  lemma GeneratedRecords(values: seq<int>, k: int)
    requires ValidDraws(values) && 0 <= k < |values|
    ensures var r := Generated(values)[k];
            r.id == k + 1 && 0 <= r.value < ValueBound &&
            r.name == "Элемент " + IntToDecimal(r.id) &&
            r.description == "Описание элемента " + IntToDecimal(r.id)
  {
    assert values[k] in values;
  }

  // ---------------------------------------------------------------------------
  // The query, as functions of the store.

  function MatchesSearch(search: string): Record -> bool
  {
    (r: Record) => IdMatches(r.id, search)
  }

  /** The records whose decimal id contains `search`, in store order. */
  function SearchFilter(items: seq<Record>, search: string): (r: seq<Record>)
    ensures forall x | x in r :: x in items && IdMatches(x.id, search)
    ensures forall x | x in items && IdMatches(x.id, search) :: x in r
    ensures IsSubsequence(r, items)
    ensures forall x | x in items :: multiset(r)[x] == if IdMatches(x.id, search) then multiset(items)[x] else 0
  {
    SelectIsSubsequence(items, MatchesSearch(search));
    SelectCounts(items, MatchesSearch(search));
    Select(items, MatchesSearch(search))
  }

  /** The ordering step: the custom-order sort when an order is set. */
  function Arrange(filtered: seq<Record>, order: seq<int>): (r: seq<Record>)
    ensures |r| == |filtered|
  {
    if |order| > 0 then
      StableSort(filtered, OrderKey(order))
    else filtered
  }

  /** The list a query pages through, whether it comes from the cache or not. */
  function Expected(store: seq<Record>, search: string, order: seq<int>): (r: seq<Record>)
    ensures search == "" ==> |r| == |store|
    ensures |r| <= |store|
  {
    Arrange(if search != "" then SearchFilter(store, search) else store, order)
  }

  /** With no custom order every record has the same key, so skipping the sort
      is the same as sorting. */
  lemma ArrangeIsStableSort(s: seq<Record>, order: seq<int>)
    ensures Arrange(s, order) == StableSort(s, OrderKey(order))
  {
    if |order| == 0 {
      assert RankMap(order) == map[];
      assert forall x :: OrderKey(order)(x) == 0;
      SortedIsFixpoint(s, OrderKey(order));
    }
  }

  /** A query's list holds exactly the store records whose id matches the
      search (all of them for an empty search), each as often as in the store,
      ranked ids first by ascending rank, unranked ones after in store order. */
  lemma ExpectedContents(store: seq<Record>, search: string, order: seq<int>)
    ensures var filtered := if search != "" then SearchFilter(store, search) else store;
            && multiset(Expected(store, search, order)) == multiset(filtered)
            && SortedBy(Expected(store, search, order), OrderKey(order))
            && forall k :: Select(Expected(store, search, order), KeyIs(OrderKey(order), k)) ==
                           Select(filtered, KeyIs(OrderKey(order), k))
    ensures forall x :: x in Expected(store, search, order) <==>
                        x in store && (search == "" || IdMatches(x.id, search))
  {
    var filtered := if search != "" then SearchFilter(store, search) else store;
    ArrangeIsStableSort(filtered, order);
    StableSortPermutes(filtered, OrderKey(order));
    StableSortSorts(filtered, OrderKey(order));
    forall k
      ensures Select(Expected(store, search, order), KeyIs(OrderKey(order), k)) ==
              Select(filtered, KeyIs(OrderKey(order), k))
    {
      StableSortIsStable(filtered, OrderKey(order), k);
    }
    forall x
      ensures x in Expected(store, search, order) <==> x in store && (search == "" || IdMatches(x.id, search))
    {
      assert x in Expected(store, search, order) <==> x in multiset(filtered);
    }
  }

  /** Sorting the store by the current order, as an empty-search query does in
      place, leaves every query under that order with the same result. So a
      cached search never goes stale because of it. */
  lemma ArrangedStoreKeepsExpected(store: seq<Record>, search: string, order: seq<int>)
    ensures Expected(Arrange(store, order), search, order) == Expected(store, search, order)
  {
    var key := OrderKey(order);
    ArrangeIsStableSort(store, order);
    if search != "" {
      var p := MatchesSearch(search);
      SelectCommutesWithSort(store, key, p);
      ArrangeIsStableSort(Select(StableSort(store, key), p), order);
      ArrangeIsStableSort(Select(store, p), order);
      StableSortIdempotent(Select(store, p), key);
    } else {
      ArrangeIsStableSort(StableSort(store, key), order);
      StableSortIdempotent(store, key);
    }
  }

  lemma ArrangeKeepsIds(s: seq<Record>, order: seq<int>)
    ensures multiset(Arrange(s, order)) == multiset(s)
    ensures IdSet(Arrange(s, order)) == IdSet(s)
  {
    ArrangeIsStableSort(s, order);
    StableSortPermutes(s, OrderKey(order));
    forall id | id in IdSet(s) ensures id in IdSet(Arrange(s, order)) {
      var r :| r in s && r.id == id;
      assert r in multiset(Arrange(s, order));
    }
    forall id | id in IdSet(Arrange(s, order)) ensures id in IdSet(s) {
      var r :| r in Arrange(s, order) && r.id == id;
      assert r in multiset(s);
    }
  }

  // ---------------------------------------------------------------------------
  // Pagination.

  /** What `parseInt` gives for a query parameter: an integer, or NaN for text
      that does not start with a number. */
  datatype Parsed = Num(n: int) | NaN

  /** `x < bound`, which is false when x is NaN. */
  predicate Below(x: Parsed, bound: int)
  {
    x.Num? && x.n < bound
  }

  /** `x > bound`, which is false when x is NaN. */
  predicate Above(x: Parsed, bound: int)
  {
    x.Num? && x.n > bound
  }

  /** The range check as written: `pageNum < 1 || limitNum < 1 || limitNum > 1000`
      rejects. No comparison with NaN is true, so a NaN page or limit passes. */
  function PassesRangeCheck(page: Parsed, limit: Parsed): (passes: bool)
    ensures page.Num? && limit.Num? ==> (passes <==> 1 <= page.n && 1 <= limit.n <= MaxLimit)
    ensures page.NaN? && limit.NaN? ==> passes
  {
    !(Below(page, 1) || Below(limit, 1) || Above(limit, MaxLimit))
  }

  /** `?page=abc` gets past the check as written whenever the limit is in
      range, and `?limit=abc` whenever the page is at least 1; the other
      parameter alone still decides. The intended check refuses both. */
  lemma NaNPassesRangeCheck(n: int)
    ensures PassesRangeCheck(NaN, Num(n)) <==> 1 <= n <= MaxLimit
    ensures PassesRangeCheck(Num(n), NaN) <==> 1 <= n
    ensures PassesRangeCheck(NaN, NaN)
    ensures !ValidRequest(NaN, Num(n)) && !ValidRequest(Num(n), NaN)
  {
  }

  /** The check as intended: both parameters are numbers in range. */
  function ValidRequest(page: Parsed, limit: Parsed): (ok: bool)
    ensures ok ==> page.Num? && limit.Num? && ValidPagination(page.n, limit.n)
  {
    page.Num? && limit.Num? && PassesRangeCheck(page, limit)
  }

  /** The intended check accepts exactly page >= 1 and 1 <= limit <= MaxLimit,
      and differs from the written one only on NaN. */
  lemma ValidRequestIsRange(page: Parsed, limit: Parsed)
    ensures ValidRequest(page, limit) <==>
              page.Num? && limit.Num? && 1 <= page.n && 1 <= limit.n <= MaxLimit
    ensures PassesRangeCheck(page, limit) && !ValidRequest(page, limit) ==> page.NaN? || limit.NaN?
    ensures ValidRequest(page, limit) ==> ValidPagination(page.n, limit.n)
  {
  }

  /** The range a page and a limit must lie in. */
  predicate ValidPagination(page: int, limit: int)
  {
    1 <= page && 1 <= limit <= MaxLimit
  }

  function Min(a: int, b: int): int
  {
    if a < b then a else b
  }

  /** `slice(start, start + limit)`: the records at positions start, start + 1, ...
      that exist, at most `limit` of them. */
  function Window(filtered: seq<Record>, start: nat, limit: nat): (w: seq<Record>)
    ensures |w| == if start < |filtered| then Min(limit, |filtered| - start) else 0
    ensures forall i :: 0 <= i < |w| ==> w[i] == filtered[start + i]
  {
    filtered[Min(start, |filtered|)..Min(start + limit, |filtered|)]
  }

  /** The page `page` of size `limit`, and whether records remain after it. */
  function Paginate(filtered: seq<Record>, page: int, limit: int): (p: Page)
    requires ValidPagination(page, limit)
    ensures p.total == |filtered| && p.page == page && p.limit == limit
    ensures |p.items| <= limit
    ensures |p.items| == if Offset(page, limit) < |filtered| then Min(limit, |filtered| - Offset(page, limit)) else 0
    ensures forall i :: 0 <= i < |p.items| ==> p.items[i] == filtered[Offset(page, limit) + i]
    ensures p.hasMore <==> Offset(page, limit) + limit < |filtered|
  {
    var start := Offset(page, limit);
    Page(Window(filtered, start, limit), |filtered|, start + limit < |filtered|, page, limit)
  }

  /** The position of a page's first record. */
  function Offset(page: int, limit: int): (start: nat)
    requires ValidPagination(page, limit)
    ensures start == (page - 1) * limit
  {
    NonNegativeProduct(page - 1, limit);
    (page - 1) * limit
  }

  lemma NonNegativeProduct(a: nat, b: nat)
    ensures a * b >= 0
  {
  }

  /** Pages 1 to n, one after another. */
  function PagesUpTo(filtered: seq<Record>, n: nat, limit: int): seq<Record>
    requires 1 <= limit <= MaxLimit
  {
    if n == 0 then [] else PagesUpTo(filtered, n - 1, limit) + Paginate(filtered, n, limit).items
  }

  /** Consecutive pages tile the list without gap or overlap: pages 1..n are
      exactly its first n * limit records. */
  lemma {:induction false} PagesTile(filtered: seq<Record>, n: nat, limit: int)
    requires 1 <= limit <= MaxLimit
    ensures PagesUpTo(filtered, n, limit) == filtered[..Min(n * limit, |filtered|)]
  {
    if n > 0 {
      PagesTile(filtered, n - 1, limit);
      var start := Offset(n, limit);
      assert start + limit == n * limit;
      var a, b := Min(start, |filtered|), Min(start + limit, |filtered|);
      assert Paginate(filtered, n, limit).items == filtered[a..b];
      assert filtered[..a] + filtered[a..b] == filtered[..b];
    }
  }

  /** Once a page says there is no more, the pages read so far hold the whole list. */
  lemma LastPageCompletes(filtered: seq<Record>, page: int, limit: int)
    requires ValidPagination(page, limit)
    requires !Paginate(filtered, page, limit).hasMore
    ensures PagesUpTo(filtered, page, limit) == filtered
  {
    PagesTile(filtered, page, limit);
    assert (page - 1) * limit + limit == page * limit;
  }

  // ---------------------------------------------------------------------------
  // Id validation and the batch toggle.

  function Unknown(valid: set<int>): int -> bool
  {
    id => id !in valid
  }

  /** `ids.filter(id => !validIds.has(id))`: the unknown ids, in request order,
      duplicates kept. */
  function InvalidIds(ids: seq<int>, items: seq<Record>): (bad: seq<int>)
    ensures forall id | id in bad :: id in ids && id !in IdSet(items)
    ensures forall id | id in ids && id !in IdSet(items) :: id in bad
    ensures bad == [] <==> Members(ids) <= IdSet(items)
    ensures IsSubsequence(bad, ids)
    ensures forall id | id in ids :: multiset(bad)[id] == if id in IdSet(items) then 0 else multiset(ids)[id]
  {
    SelectIsSubsequence(ids, Unknown(IdSet(items)));
    SelectCounts(ids, Unknown(IdSet(items)));
    var bad := Select(ids, Unknown(IdSet(items)));
    assert bad != [] ==> bad[0] in bad;
    bad
  }

  /** One toggle: delete if present, add if absent. */
  function Flip(s: set<int>, id: int): (r: set<int>)
    ensures forall x :: x in r <==> (x in s) != (x == id)
  {
    if id in s then s - {id} else s + {id}
  }

  /** The toggles of a batch, applied in request order. */
  function ToggleAll(s: set<int>, ids: seq<int>): (r: set<int>)
    ensures forall x | x !in ids :: x in r <==> x in s
  {
    if ids == [] then s else Flip(ToggleAll(s, ids[..|ids| - 1]), ids[|ids| - 1])
  }

  /** After a toggle batch an id is selected exactly when it was selected and
      occurs an even number of times, or was not and occurs an odd number. */
  lemma {:induction false} ToggleAllParity(s: set<int>, ids: seq<int>, x: int)
    ensures x in ToggleAll(s, ids) <==> ((x in s) != (multiset(ids)[x] % 2 == 1))
  {
    if ids != [] {
      var n := |ids| - 1;
      ToggleAllParity(s, ids[..n], x);
      assert ids == ids[..n] + [ids[n]];
      assert multiset(ids) == multiset(ids[..n]) + multiset{ids[n]};
    }
  }

  /** An id listed twice in a toggle batch ends where it started. */
  lemma ToggleTwiceCancels(s: set<int>, id: int)
    ensures ToggleAll(s, [id, id]) == s
  {
    forall x ensures x in ToggleAll(s, [id, id]) <==> x in s {
      ToggleAllParity(s, [id, id], x);
    }
  }

  lemma {:induction false} ToggleAllWithin(s: set<int>, ids: seq<int>)
    ensures ToggleAll(s, ids) <= s + Members(ids)
  {
    if ids != [] {
      ToggleAllWithin(s, ids[..|ids| - 1]);
      assert Members(ids[..|ids| - 1]) <= Members(ids);
    }
  }

  // ---------------------------------------------------------------------------
  // The cache and its sweep.

  /** Every cached search is keyed by the current order and holds what
      recomputing it from the current store would give. */
  ghost predicate CacheCoherent(cache: map<CacheKey, Entry>, items: seq<Record>, order: seq<int>)
  {
    forall k | k in cache ::
      && k.1 == order
      && k.0 != ""
      && cache[k].filtered == Expected(items, k.0, order)
      && cache[k].total == |cache[k].filtered|
  }

  /** The in-place sort of the store keeps the cache coherent. */
  lemma CoherentAfterArrange(cache: map<CacheKey, Entry>, items: seq<Record>, order: seq<int>)
    requires CacheCoherent(cache, items, order)
    ensures CacheCoherent(cache, Arrange(items, order), order)
  {
    forall k | k in cache
      ensures cache[k].filtered == Expected(Arrange(items, order), k.0, order)
    {
      ArrangedStoreKeepsExpected(items, k.0, order);
    }
  }

  /** Storing a freshly computed search keeps the cache coherent. */
  lemma CoherentAfterStore(cache: map<CacheKey, Entry>, items: seq<Record>, order: seq<int>,
                           search: string, now: int)
    requires CacheCoherent(cache, items, order)
    requires search != ""
    ensures CacheCoherent(cache[(search, order) := Entry(Expected(items, search, order),
                                                         |Expected(items, search, order)|, now)],
                          items, order)
  {
  }

  /** Dropping entries keeps the cache coherent. */
  lemma CoherentSubmap(smaller: map<CacheKey, Entry>, cache: map<CacheKey, Entry>,
                       items: seq<Record>, order: seq<int>)
    requires CacheCoherent(cache, items, order)
    requires smaller.Keys <= cache.Keys
    requires forall k | k in smaller :: smaller[k] == cache[k]
    ensures CacheCoherent(smaller, items, order)
  {
  }

  /** The entries the sweep keeps: those at most CacheTtl old. */
  function Unexpired(cache: map<CacheKey, Entry>, now: int): (kept: map<CacheKey, Entry>)
    ensures kept.Keys <= cache.Keys
    ensures forall k | k in cache :: k in kept <==> now - cache[k].timestamp <= CacheTtl
    ensures forall k | k in kept :: kept[k] == cache[k]
  {
    map k | k in cache && now - cache[k].timestamp <= CacheTtl :: cache[k]
  }

  /** A later sweep removes everything an earlier one did: sweeping at t1 and
      then at t2 >= t1 is sweeping at t2. In particular a sweep is idempotent. */
  lemma SweepsCompose(cache: map<CacheKey, Entry>, t1: int, t2: int)
    requires t1 <= t2
    ensures Unexpired(Unexpired(cache, t1), t2) == Unexpired(cache, t2)
  {
  }

  // ---------------------------------------------------------------------------
  // The store.

  class ItemStore {
    /** What the generator's `Math.random` calls yield, one value per record. */
    const randomValues: seq<int>

    var items: seq<Record>
    var selected: set<int>
    var order: seq<int>
    var cache: map<CacheKey, Entry>

    ghost predicate Valid()
      reads this
    {
      && Members(order) <= IdSet(items)
      && selected <= IdSet(items)
      && ValidDraws(randomValues)
      && (items == [] ==> cache == map[])
      && CacheCoherent(cache, items, order)
    }

    /** The store after lazy generation: generated when empty, as is otherwise. */
    function LoadedItems(before: seq<Record>): seq<Record>
    {
      if before == [] then Generated(randomValues) else before
    }

    /** The order after lazy generation: the generated ids when the store was empty. */
    function LoadedOrder(before: seq<Record>, order: seq<int>): seq<int>
    {
      if before == [] then Ids(Generated(randomValues)) else order
    }

    /** Generating twice is generating once. */
    lemma GenerateIsIdempotent(before: seq<Record>, order: seq<int>)
      ensures LoadedItems(LoadedItems(before)) == LoadedItems(before)
      ensures LoadedOrder(LoadedItems(before), LoadedOrder(before, order)) == LoadedOrder(before, order)
    {
    }

    constructor (randomValues: seq<int>)
      requires ValidDraws(randomValues)
      ensures Valid()
      ensures this.randomValues == randomValues
      ensures items == [] && selected == {} && order == [] && cache == map[]
    {
      this.randomValues := randomValues;
      items := [];
      selected := {};
      order := [];
      cache := map[];
    }

    /** `generateItems`: fills an empty store with records 1..N and makes
        their ids the custom order; does nothing otherwise. */
    method GenerateItems()
      requires Valid()
      modifies this`items, this`order
      ensures Valid()
      ensures items == LoadedItems(old(items))
      ensures order == LoadedOrder(old(items), old(order))
    {
      if |items| == 0 {
        MembersEmpty(order);
        var generated := BuildItems(randomValues);
        items := generated;
        order := Ids(generated);
        IdsWithin(items);
      }
    }

    /** `GET /api/items`: generates if needed, checks the page range, then
        takes the list from the cache or computes it, then cuts the page. */
    method Query(search: string, page: Parsed, limit: Parsed, now: int) returns (r: Result<Page, Failure>)
      requires Valid()
      modifies this`items, this`order, this`cache
      ensures Valid()
      ensures selected == old(selected)
      ensures order == LoadedOrder(old(items), old(order))
      ensures r.Err? <==> !ValidRequest(page, limit)
      ensures r.Err? ==> r.error == BadPagination && items == LoadedItems(old(items)) && cache == old(cache)
      ensures r.Ok? ==> r.value == Paginate(Expected(LoadedItems(old(items)), search, order), page.n, limit.n)
      ensures r.Ok? ==> items == if search == "" then Arrange(LoadedItems(old(items)), order)
                                 else LoadedItems(old(items))
      ensures r.Ok? ==> cache == if search == "" || (search, order) in old(cache) then old(cache)
                                 else old(cache)[(search, order) :=
                                   Entry(Expected(LoadedItems(old(items)), search, order),
                                         |Expected(LoadedItems(old(items)), search, order)|, now)]
    {
      GenerateItems();
      if !ValidRequest(page, limit) {
        return Err(BadPagination);
      }
      var filtered := Filtered(search, now);
      r := Ok(Paginate(filtered, page.n, limit.n));
    }

    /** The middle of the query: a cache hit for a non-empty search returns the
        stored list; otherwise the store is filtered by id, sorted by the
        custom order when there is one, and a non-empty search is cached.
        With an empty search the list sorted is the store's own array, so the
        store itself ends up reordered. */
    method Filtered(search: string, now: int) returns (filtered: seq<Record>)
      requires Valid() && items != []
      modifies this`items, this`cache
      ensures Valid()
      ensures filtered == Expected(old(items), search, order)
      ensures items == if search == "" then Arrange(old(items), order) else old(items)
      ensures cache == if search == "" || (search, order) in old(cache) then old(cache)
                       else old(cache)[(search, order) :=
                         Entry(Expected(old(items), search, order), |Expected(old(items), search, order)|, now)]
    {
      if search == "" {
        filtered := SortStore();
      } else if (search, order) in cache {
        filtered := cache[(search, order)].filtered;
      } else {
        filtered := FilterAndCache(search, now);
      }
    }

    /** The empty-search branch: `filteredItems` is the store's array itself, so
        sorting it by the custom order reorders the store. Nothing is cached. */
    method SortStore() returns (sorted: seq<Record>)
      requires Valid() && items != []
      modifies this`items
      ensures Valid()
      ensures items == Arrange(old(items), order)
      ensures sorted == items
    {
      if |order| > 0 {
        var rank := BuildRankMap(order);
        ArrangeKeepsIds(items, order);
        CoherentAfterArrange(cache, items, order);
        items := StableSort(items, ByRank(rank, |order|));
      }
      sorted := items;
    }

    /** A non-empty search missing from the cache: filter the store by id, sort
        the copy by the custom order, and cache it under the search and order. */
    method FilterAndCache(search: string, now: int) returns (filtered: seq<Record>)
      requires Valid() && items != [] && search != ""
      modifies this`cache
      ensures Valid()
      ensures filtered == Expected(items, search, order)
      ensures cache == old(cache)[(search, order) := Entry(filtered, |filtered|, now)]
    {
      filtered := SearchFilter(items, search);
      if |order| > 0 {
        var rank := BuildRankMap(order);
        filtered := StableSort(filtered, ByRank(rank, |order|));
      }
      CoherentAfterStore(cache, items, order, search, now);
      cache := cache[(search, order) := Entry(filtered, |filtered|, now)];
    }

    /** `POST /api/items/order`: all ids must exist; then the order is replaced
        (duplicates allowed) and the cache emptied. */
    method UpdateOrder(itemOrder: Option<seq<int>>) returns (r: Result<nat, Failure>)
      requires Valid()
      modifies this`order, this`cache
      ensures Valid()
      ensures itemOrder.None? ==> r == Err(BadFormat) && order == old(order) && cache == old(cache)
      ensures itemOrder.Some? && InvalidIds(itemOrder.value, items) != [] ==>
                r == Err(UnknownIds(InvalidIds(itemOrder.value, items)))
                && order == old(order) && cache == old(cache)
      ensures itemOrder.Some? && InvalidIds(itemOrder.value, items) == [] ==>
                r == Ok(|itemOrder.value|) && order == itemOrder.value && cache == map[]
    {
      if itemOrder.None? {
        return Err(BadFormat);
      }
      var ids := itemOrder.value;
      var invalid := InvalidIds(ids, items);
      if |invalid| > 0 {
        return Err(UnknownIds(invalid));
      }
      order := ids;
      cache := map[];
      r := Ok(|ids|);
    }

    /** `POST /api/items/selection`: all ids must exist; then the selection
        becomes exactly those ids. The count is the request's length. */
    method ReplaceSelection(selectedItems: Option<seq<int>>) returns (r: Result<nat, Failure>)
      requires Valid()
      modifies this`selected
      ensures Valid()
      ensures selectedItems.None? ==> r == Err(BadFormat) && selected == old(selected)
      ensures selectedItems.Some? && InvalidIds(selectedItems.value, items) != [] ==>
                r == Err(UnknownIds(InvalidIds(selectedItems.value, items)))
                && selected == old(selected)
      ensures selectedItems.Some? && InvalidIds(selectedItems.value, items) == [] ==>
                r == Ok(|selectedItems.value|) && selected == Members(selectedItems.value)
    {
      if selectedItems.None? {
        return Err(BadFormat);
      }
      var ids := selectedItems.value;
      var invalid := InvalidIds(ids, items);
      if |invalid| > 0 {
        return Err(UnknownIds(invalid));
      }
      selected := Members(ids);
      r := Ok(|ids|);
    }

    /** `POST /api/items/batch`: checks the body and every id, then selects,
        deselects or toggles each listed id in turn. The count is the size of
        the resulting selection. */
    method Batch(action: string, itemIds: Option<seq<int>>) returns (r: Result<nat, Failure>)
      requires Valid()
      modifies this`selected
      ensures Valid()
      ensures action == "" || itemIds.None? ==> r == Err(BadFormat) && selected == old(selected)
      ensures action != "" && itemIds.Some? && InvalidIds(itemIds.value, items) != [] ==>
                r == Err(UnknownIds(InvalidIds(itemIds.value, items))) && selected == old(selected)
      ensures action != "" && itemIds.Some? && InvalidIds(itemIds.value, items) == [] ==>
                && (action == "select" ==> selected == old(selected) + Members(itemIds.value))
                && (action == "deselect" ==> selected == old(selected) - Members(itemIds.value))
                && (action == "toggle" ==> selected == ToggleAll(old(selected), itemIds.value))
                && (action !in {"select", "deselect", "toggle"} ==>
                      r == Err(UnknownAction) && selected == old(selected))
                && (action in {"select", "deselect", "toggle"} ==> r == Ok(|selected|))
    {
      if action == "" || itemIds.None? {
        return Err(BadFormat);
      }
      var ids := itemIds.value;
      var invalid := InvalidIds(ids, items);
      if |invalid| > 0 {
        return Err(UnknownIds(invalid));
      }
      if action == "select" {
        AddEach(ids);
      } else if action == "deselect" {
        RemoveEach(ids);
      } else if action == "toggle" {
        ToggleEach(ids);
        ToggleAllWithin(old(selected), ids);
      } else {
        return Err(UnknownAction);
      }
      r := Ok(|selected|);
    }

    /** The `select` loop: adds each id. */
    method AddEach(ids: seq<int>)
      modifies this`selected
      ensures selected == old(selected) + Members(ids)
    {
      var i := 0;
      while i < |ids|
        invariant 0 <= i <= |ids|
        invariant selected == old(selected) + Members(ids[..i])
      {
        MembersSnoc(ids, i);
        selected := selected + {ids[i]};
        i := i + 1;
      }
      assert ids[..|ids|] == ids;
    }

    /** The `deselect` loop: deletes each id. */
    method RemoveEach(ids: seq<int>)
      modifies this`selected
      ensures selected == old(selected) - Members(ids)
    {
      var i := 0;
      while i < |ids|
        invariant 0 <= i <= |ids|
        invariant selected == old(selected) - Members(ids[..i])
      {
        MembersSnoc(ids, i);
        selected := selected - {ids[i]};
        i := i + 1;
      }
      assert ids[..|ids|] == ids;
    }

    /** The `toggle` loop: flips each id in turn. */
    method ToggleEach(ids: seq<int>)
      modifies this`selected
      ensures selected == ToggleAll(old(selected), ids)
    {
      var i := 0;
      while i < |ids|
        invariant 0 <= i <= |ids|
        invariant selected == ToggleAll(old(selected), ids[..i])
      {
        assert ids[..i + 1][..i] == ids[..i];
        if ids[i] in selected {
          selected := selected - {ids[i]};
        } else {
          selected := selected + {ids[i]};
        }
        i := i + 1;
      }
      assert ids[..|ids|] == ids;
    }

    /** `GET /api/state`: a read-only snapshot. */
    method GetState() returns (s: Snapshot)
      requires Valid()
      ensures s.selectedItems == selected && s.itemOrder == order
      ensures s.totalItems == |items| && s.selectedCount == |s.selectedItems|
      ensures s.selectedItems <= IdSet(items) && Members(s.itemOrder) <= IdSet(items)
    {
      s := Snapshot(selected, order, |items|, |selected|);
    }

    /** `POST /api/state/reset`: clears the selection unless kept, rebuilds the
        order from the store's current sequence unless kept, always empties
        the cache. */
    method Reset(preserveSelection: bool, preserveOrder: bool) returns (r: ResetReply)
      requires Valid()
      modifies this`selected, this`order, this`cache
      ensures Valid()
      ensures selected == if preserveSelection then old(selected) else {}
      ensures order == if preserveOrder then old(order) else Ids(items)
      ensures cache == map[]
      ensures r == ResetReply(preserveSelection, preserveOrder)
    {
      if !preserveSelection {
        selected := {};
      }
      if !preserveOrder {
        order := Ids(items);
        IdsWithin(items);
      }
      cache := map[];
      r := ResetReply(preserveSelection, preserveOrder);
    }

    /** The periodic sweep: deletes each entry older than CacheTtl at time `now`. */
    method Sweep(now: int)
      requires Valid()
      modifies this`cache
      ensures Valid()
      ensures cache == Unexpired(old(cache), now)
    {
      DropExpired(now);
      CoherentSubmap(cache, old(cache), items, order);
    }

    /** The sweep's loop over the keys, deleting while iterating. */
    method DropExpired(now: int)
      modifies this`cache
      ensures cache == Unexpired(old(cache), now)
    {
      var pending := cache.Keys;
      while pending != {}
        invariant pending <= cache.Keys <= old(cache).Keys
        invariant forall k | k in cache :: cache[k] == old(cache)[k]
        invariant forall k | k in old(cache) ::
                    k in cache <==> k in pending || now - old(cache)[k].timestamp <= CacheTtl
        decreases pending
      {
        var k :| k in pending;
        if now - cache[k].timestamp > CacheTtl {
          cache := cache - {k};
        }
        pending := pending - {k};
      }
    }
  }
}
