/** The list logic of the client hook `useItems`: the custom-order and field
    sorts applied to loaded records, the appending of a fetched page, the
    selection updates and the filtering of a dragged order. React state,
    effects and storage are outside the model; each operation takes the
    previous state as a value and returns the next one. */
module UseItems {
  import opened Records
  import opened Ordering
  import ItemServer

  /** The sort the table shows: a column name and `asc`/`desc`. */
  datatype SortState = SortState(sortBy: string, sortOrder: string)

  /** No two records share an id. */
  predicate DistinctIds(s: seq<Record>)
  {
    forall i, j :: 0 <= i < j < |s| ==> s[i].id != s[j].id
  }

  // ---------------------------------------------------------------------------
  // Custom-order sorting.

  /** What `applyCustomSorting` returns: its input when the order or the list is
      empty, otherwise a sorted copy, ranked ids first by their (last)
      position in the order, unranked ones after. */
  function CustomSorted(items: seq<Record>, customOrder: seq<int>): (r: seq<Record>)
    ensures customOrder == [] || items == [] ==> r == items
    ensures multiset(r) == multiset(items) && |r| == |items|
    ensures SortedBy(r, OrderKey(customOrder))
  {
    if |customOrder| == 0 || |items| == 0 then
      assert forall i, j :: 0 <= i < j < |items| ==> OrderKey(customOrder)(items[i]) == OrderKey(customOrder)(items[j]);
      items
    else
      StableSortPermutes(items, OrderKey(customOrder));
      StableSortSorts(items, OrderKey(customOrder));
      StableSort(items, OrderKey(customOrder))
  }

  /** `applyCustomSorting`: builds the rank map with its loop, then sorts a copy. */
  method ApplyCustomSorting(items: seq<Record>, customOrder: seq<int>) returns (r: seq<Record>)
    ensures r == CustomSorted(items, customOrder)
  {
    if |customOrder| == 0 || |items| == 0 {
      return items;
    }
    var orderMap := BuildRankMap(customOrder);
    r := StableSort(items, ByRank(orderMap, |customOrder|));
  }

  /** The custom sort keeps the input order among records of equal rank, in
      particular among all the records the order does not mention. */
  lemma CustomSortedIsStable(items: seq<Record>, customOrder: seq<int>, k: int)
    ensures Select(CustomSorted(items, customOrder), KeyIs(OrderKey(customOrder), k)) ==
            Select(items, KeyIs(OrderKey(customOrder), k))
  {
    if |customOrder| > 0 && |items| > 0 {
      StableSortIsStable(items, OrderKey(customOrder), k);
    }
  }

  /** In the custom sort a record whose id is in the order is never preceded by
      one whose id is not, and ranked ones follow their positions. */
  lemma CustomSortedRankedFirst(items: seq<Record>, customOrder: seq<int>, i: int, j: int)
    requires 0 <= i < j < |items|
    ensures var r := CustomSorted(items, customOrder);
            r[j].id in customOrder ==>
              r[i].id in customOrder && RankMap(customOrder)[r[i].id] <= RankMap(customOrder)[r[j].id]
  {
    var r := CustomSorted(items, customOrder);
    assert OrderKey(customOrder)(r[i]) <= OrderKey(customOrder)(r[j]);
  }

  /** The server's sorted list for an empty search is already in custom order,
      so sorting a page of it again on the client changes nothing. */
  lemma ResortingSortedPageIsIdentity(page: seq<Record>, customOrder: seq<int>)
    requires SortedBy(page, OrderKey(customOrder))
    ensures CustomSorted(page, customOrder) == page
  {
    if |customOrder| > 0 && |page| > 0 {
      SortedIsFixpoint(page, OrderKey(customOrder));
    }
  }

  // ---------------------------------------------------------------------------
  // Field sorting.

  /** `a[sortBy]` for a record: `Missing` is `undefined` (an unknown column). */
  datatype FieldValue = Missing | Number(n: int) | NotANumber

  /** The value of a numeric column; any other column has none. */
  function NumericField(r: Record, field: string): (v: FieldValue)
    ensures v.Number? <==> field == "id" || field == "value"
    ensures v != NotANumber
  {
    if field == "id" then Number(r.id)
    else if field == "value" then Number(r.value)
    else Missing
  }

  /** `Number(v) || 0` after `undefined`/`null` became `''`: an empty value and
      NaN both give 0. */
  function Coerce(v: FieldValue): (n: int)
    ensures v.Number? ==> n == v.n
    ensures !v.Number? ==> n == 0
  {
    match v
    case Number(n) => n
    case _ => 0
  }

  /** `sortOrder === 'desc' ? -1 : 1`. */
  function Direction(sortOrder: string): (d: int)
    ensures d == 1 || d == -1
    ensures d == -1 <==> sortOrder == "desc"
  {
    if sortOrder == "desc" then -1 else 1
  }

  /** The numeric comparator `(aValue - bValue) * sortDirection`. */
  function CompareNumeric(a: Record, b: Record, field: string, sortOrder: string): (c: int)
    ensures c == 0 <==> Coerce(NumericField(a, field)) == Coerce(NumericField(b, field))
    ensures sortOrder != "desc" ==> (c < 0 <==> Coerce(NumericField(a, field)) < Coerce(NumericField(b, field)))
    ensures sortOrder == "desc" ==> (c < 0 <==> Coerce(NumericField(a, field)) > Coerce(NumericField(b, field)))
  {
    (Coerce(NumericField(a, field)) - Coerce(NumericField(b, field))) * Direction(sortOrder)
  }

  /** The sort key equivalent to the numeric comparator. */
  function NumericKey(field: string, direction: int): Record -> int
  {
    (r: Record) => Coerce(NumericField(r, field)) * direction
  }

  /** The comparator is the difference of the keys, so a stable sort by the
      key is the sort the comparator asks for; ascending compares values
      directly and descending negates the comparison. */
  lemma NumericComparatorIsKeyDifference(a: Record, b: Record, field: string, sortOrder: string)
    ensures CompareNumeric(a, b, field, sortOrder) ==
            NumericKey(field, Direction(sortOrder))(a) - NumericKey(field, Direction(sortOrder))(b)
    ensures sortOrder != "desc" ==>
              CompareNumeric(a, b, field, sortOrder) == Coerce(NumericField(a, field)) - Coerce(NumericField(b, field))
    ensures CompareNumeric(a, b, field, "desc") == -CompareNumeric(a, b, field, "asc")
  {
  }

  /** The string of a text column; an unknown column reads as `''`. */
  function TextField(r: Record, field: string): string
  {
    if field == "name" then r.name
    else if field == "description" then r.description
    else ""
  }

  /** The string comparator's key: `collate` ranks lower-cased strings the way
      `localeCompare` orders them. */
  function TextKey(field: string, direction: int, collate: string -> int): (key: Record -> int)
    ensures forall a, b :: TextField(a, field) == TextField(b, field) ==> key(a) == key(b)
  {
    (r: Record) => collate(TextField(r, field)) * direction
  }

  /** The key the field sort uses for a column. */
  function FieldKey(sortBy: string, sortOrder: string, collate: string -> int): (key: Record -> int)
    ensures sortBy == "id" || sortBy == "value" ==>
              forall a, b :: key(a) - key(b) == CompareNumeric(a, b, sortBy, sortOrder)
    ensures !(sortBy == "id" || sortBy == "value") ==>
              forall a, b :: TextField(a, sortBy) == TextField(b, sortBy) ==> key(a) == key(b)
  {
    if sortBy == "id" || sortBy == "value" then NumericKey(sortBy, Direction(sortOrder))
    else TextKey(sortBy, Direction(sortOrder), collate)
  }

  /** `applySorting`: leaves an empty list and any search result alone,
      delegates to the custom sort for `custom` with an order, and otherwise
      sorts a copy by the column. */
  function ApplySorting(items: seq<Record>, sortBy: string, sortOrder: string, itemOrder: seq<int>,
                        searchTerm: string, collate: string -> int): (r: seq<Record>)
    ensures multiset(r) == multiset(items) && |r| == |items|
  {
    if |items| == 0 then items
    else if searchTerm != "" then items
    else if sortBy == "custom" && |itemOrder| > 0 then CustomSorted(items, itemOrder)
    else
      StableSortPermutes(items, FieldKey(sortBy, sortOrder, collate));
      StableSort(items, FieldKey(sortBy, sortOrder, collate))
  }

  /** An empty list and a search result come back unchanged; `custom` with an
      order gives the custom sort; every other case is the column sort. */
  lemma ApplySortingCases(items: seq<Record>, sortBy: string, sortOrder: string, itemOrder: seq<int>,
                          searchTerm: string, collate: string -> int)
    ensures items == [] || searchTerm != "" ==>
              ApplySorting(items, sortBy, sortOrder, itemOrder, searchTerm, collate) == items
    ensures searchTerm == "" && sortBy == "custom" && |itemOrder| > 0 ==>
              ApplySorting(items, sortBy, sortOrder, itemOrder, searchTerm, collate) == CustomSorted(items, itemOrder)
    ensures searchTerm == "" && !(sortBy == "custom" && |itemOrder| > 0) ==>
              ApplySorting(items, sortBy, sortOrder, itemOrder, searchTerm, collate) ==
              StableSort(items, FieldKey(sortBy, sortOrder, collate))
  {
    if items == [] {
      assert StableSort(items, FieldKey(sortBy, sortOrder, collate)) == [];
    }
  }

  /** With no search, sorting by `id` or `value` orders the values ascending
      for `asc` (or any other order word) and descending for `desc`. */
  lemma NumericSortOrders(items: seq<Record>, field: string, sortOrder: string, itemOrder: seq<int>,
                          collate: string -> int, i: int, j: int)
    requires field == "id" || field == "value"
    requires 0 <= i < j < |items|
    ensures var r := ApplySorting(items, field, sortOrder, itemOrder, "", collate);
            if sortOrder == "desc" then Coerce(NumericField(r[i], field)) >= Coerce(NumericField(r[j], field))
            else Coerce(NumericField(r[i], field)) <= Coerce(NumericField(r[j], field))
  {
    var key := FieldKey(field, sortOrder, collate);
    StableSortSorts(items, key);
    StableSortPermutes(items, key);
    var r := StableSort(items, key);
    assert key(r[i]) <= key(r[j]);
  }

  /** On a list whose values in the column are distinct, the `desc` sort is the
      `asc` sort reversed. */
  lemma DescendingReversesAscending(items: seq<Record>, field: string, itemOrder: seq<int>,
                                    collate: string -> int)
    requires field == "id" || field == "value"
    requires KeyInjective(items, NumericKey(field, 1))
    ensures ApplySorting(items, field, "desc", itemOrder, "", collate) ==
            Reverse(ApplySorting(items, field, "asc", itemOrder, "", collate))
  {
    if items != [] {
      var up, down := NumericKey(field, 1), NumericKey(field, -1);
      assert FieldKey(field, "asc", collate) == up;
      assert FieldKey(field, "desc", collate) == down;
      assert forall x :: down(x) == -up(x);
      SortByNegatedKeyIsReverse(items, up, down);
    }
  }

  /** A column no record has (every value reads as `''`) leaves the list in its
      loaded order. */
  lemma UnknownColumnKeepsOrder(items: seq<Record>, sortBy: string, sortOrder: string, itemOrder: seq<int>,
                                collate: string -> int)
    requires sortBy !in {"id", "value", "name", "description"}
    requires !(sortBy == "custom" && |itemOrder| > 0)
    ensures ApplySorting(items, sortBy, sortOrder, itemOrder, "", collate) == items
  {
    var key := FieldKey(sortBy, sortOrder, collate);
    assert key == TextKey(sortBy, Direction(sortOrder), collate);
    forall i, j | 0 <= i < j < |items| ensures key(items[i]) <= key(items[j]) {
      assert TextField(items[i], sortBy) == "" && TextField(items[j], sortBy) == "";
    }
    SortedIsFixpoint(items, key);
  }

  /** `resetSorting`: back to ascending by id. */
  function ResetSorting(s: SortState): (t: SortState)
    ensures t.sortBy == "id" && t.sortOrder == "asc"
  {
    SortState("id", "asc")
  }

  /** After a reset a generated list, whose ids ascend, shows in its own order. */
  lemma ResetShowsGeneratedOrder(values: seq<int>, s: SortState, itemOrder: seq<int>, collate: string -> int)
    ensures var t := ResetSorting(s);
            ApplySorting(ItemServer.Generated(values), t.sortBy, t.sortOrder, itemOrder, "", collate) ==
            ItemServer.Generated(values)
  {
    var g := ItemServer.Generated(values);
    var key := FieldKey("id", "asc", collate);
    forall i, j | 0 <= i < j < |g| ensures key(g[i]) <= key(g[j]) {
      assert g[i].id == i + 1 && g[j].id == j + 1;
    }
    SortedIsFixpoint(g, key);
  }

  // ---------------------------------------------------------------------------
  // Loading a page.

  /** The client re-sorts a fetched page itself only for `custom` with an order
      and no search. */
  function ProcessReceived(received: seq<Record>, sortBy: string, searchTerm: string, itemOrder: seq<int>): (r: seq<Record>)
    ensures multiset(r) == multiset(received)
    ensures !(sortBy == "custom" && searchTerm == "" && |itemOrder| > 0) ==> r == received
    ensures sortBy == "custom" && searchTerm == "" && |itemOrder| > 0 ==>
              && SortedBy(r, OrderKey(itemOrder))
              && forall k :: Select(r, KeyIs(OrderKey(itemOrder), k)) == Select(received, KeyIs(OrderKey(itemOrder), k))
  {
    if sortBy == "custom" && searchTerm == "" && |itemOrder| > 0 then
      assert forall k :: Select(CustomSorted(received, itemOrder), KeyIs(OrderKey(itemOrder), k)) ==
                         Select(received, KeyIs(OrderKey(itemOrder), k)) by {
        forall k
          ensures Select(CustomSorted(received, itemOrder), KeyIs(OrderKey(itemOrder), k)) ==
                  Select(received, KeyIs(OrderKey(itemOrder), k))
        {
          CustomSortedIsStable(received, itemOrder, k);
        }
      }
      CustomSorted(received, itemOrder)
    else received
  }

  function NotLoaded(existing: set<int>): Record -> bool
  {
    (r: Record) => r.id !in existing
  }

  /** The loaded list after a page arrives: a new search or page 1 replaces it;
      a later page appends, in received order, the records whose id is not yet
      loaded. */
  function AppendPage(loaded: seq<Record>, received: seq<Record>, page: int, isNewSearch: bool): (r: seq<Record>)
    ensures isNewSearch || page == 1 ==> r == received
    ensures !(isNewSearch || page == 1) ==>
              && |loaded| <= |r| && r[..|loaded|] == loaded
              && IsSubsequence(r[|loaded|..], received)
              && (forall x | x in r[|loaded|..] :: x in received && x.id !in IdSet(loaded))
              && (forall x | x in received && x.id !in IdSet(loaded) :: x in r[|loaded|..])
              && (forall x | x in received ::
                    multiset(r[|loaded|..])[x] == if x.id in IdSet(loaded) then 0 else multiset(received)[x])
  {
    if isNewSearch || page == 1 then received
    else
      var added := Select(received, NotLoaded(IdSet(loaded)));
      SelectIsSubsequence(received, NotLoaded(IdSet(loaded)));
      SelectCounts(received, NotLoaded(IdSet(loaded)));
      assert (loaded + added)[|loaded|..] == added;
      loaded + added
  }

  /** A page whose own ids are distinct keeps the loaded ids distinct. */
  lemma AppendKeepsIdsDistinct(loaded: seq<Record>, received: seq<Record>, page: int, isNewSearch: bool)
    requires DistinctIds(loaded) && DistinctIds(received)
    ensures DistinctIds(AppendPage(loaded, received, page, isNewSearch))
  {
    if !(isNewSearch || page == 1) {
      var added := Select(received, NotLoaded(IdSet(loaded)));
      SelectKeepsDistinct(received, NotLoaded(IdSet(loaded)));
      var r := loaded + added;
      forall i, j | 0 <= i < j < |r| ensures r[i].id != r[j].id {
        if j >= |loaded| && i < |loaded| {
          assert r[i] in loaded;
          assert r[j] in added;
        } else if i >= |loaded| {
          assert r[i] == added[i - |loaded|] && r[j] == added[j - |loaded|];
        }
      }
    }
  }

  lemma {:induction false} SelectKeepsDistinct(s: seq<Record>, p: Record -> bool)
    requires DistinctIds(s)
    ensures DistinctIds(Select(s, p))
  {
    if s != [] {
      SelectKeepsDistinct(s[1..], p);
      var rest := Select(s[1..], p);
      assert forall x | x in rest :: x in s[1..];
      forall x | x in rest ensures x.id != s[0].id {
        var k :| 0 <= k < |s[1..]| && s[1..][k] == x;
        assert s[k + 1] == x;
      }
    }
  }

  // ---------------------------------------------------------------------------
  // Selection.

  /** `!id`: no id, or the id 0. */
  function Falsy(id: Option<int>): (falsy: bool)
    ensures falsy <==> (id.Some? ==> id.value == 0)
  {
    id.None? || id == Some(0)
  }

  /** The selection after `toggleSelection(id)`. */
  function Toggled(prev: set<int>, id: Option<int>): (next: set<int>)
    ensures Falsy(id) ==> next == prev
    ensures !Falsy(id) ==> forall x :: x in next <==> ((x in prev) != (x == id.value))
  {
    if Falsy(id) then prev
    else if id.value in prev then prev - {id.value}
    else prev + {id.value}
  }

  /** Toggling the same id twice gives back the selection. */
  lemma ToggleTwiceRestores(prev: set<int>, id: Option<int>)
    ensures Toggled(Toggled(prev, id), id) == prev
  {
  }

  /** `toggleSelection`: copies the set, then deletes or adds the id. */
  method ToggleSelection(prev: set<int>, id: Option<int>) returns (next: set<int>)
    ensures next == Toggled(prev, id)
  {
    if Falsy(id) {
      return prev;
    }
    next := prev;
    if id.value in next {
      next := next - {id.value};
    } else {
      next := next + {id.value};
    }
  }

  /** The selection after `toggleSelectAll(selectAll)` over the visible list:
      every visible id is in it exactly when `selectAll`, every other id as before. */
  function VisibleApplied(prev: set<int>, visible: seq<Record>, selectAll: bool): (next: set<int>)
    ensures forall x | x in IdSet(visible) :: x in next <==> selectAll
    ensures forall x | x !in IdSet(visible) :: x in next <==> x in prev
  {
    if selectAll then prev + IdSet(visible) else prev - IdSet(visible)
  }

  /** Repeating a select-all (or deselect-all) changes nothing more. */
  lemma SelectAllIdempotent(prev: set<int>, visible: seq<Record>, selectAll: bool)
    ensures VisibleApplied(VisibleApplied(prev, visible, selectAll), visible, selectAll) ==
            VisibleApplied(prev, visible, selectAll)
  {
  }

  /** `toggleSelectAll`: copies the set and adds or deletes each visible id in turn. */
  method ToggleSelectAll(prev: set<int>, filteredItems: seq<Record>, selectAll: bool) returns (next: set<int>)
    ensures next == VisibleApplied(prev, filteredItems, selectAll)
  {
    var visibleIds := Ids(filteredItems);
    next := prev;
    var i := 0;
    while i < |visibleIds|
      invariant 0 <= i <= |visibleIds|
      invariant next == VisibleApplied(prev, filteredItems[..i], selectAll)
    {
      assert IdSet(filteredItems[..i + 1]) == IdSet(filteredItems[..i]) + {visibleIds[i]} by {
        assert filteredItems[..i + 1] == filteredItems[..i] + [filteredItems[i]];
      }
      if selectAll {
        next := next + {visibleIds[i]};
      } else {
        next := next - {visibleIds[i]};
      }
      i := i + 1;
    }
    assert filteredItems[..|visibleIds|] == filteredItems;
  }

  // ---------------------------------------------------------------------------
  // Reordering.

  function IsLoaded(loaded: set<int>): int -> bool
  {
    id => id in loaded
  }

  /** The order `updateItemOrder` stores: unchanged for a non-array input,
      otherwise the input restricted to loaded ids, in input order. */
  function FilterOrder(newOrder: Option<seq<int>>, loaded: seq<Record>, current: seq<int>): (r: seq<int>)
    ensures newOrder.None? ==> r == current
    ensures newOrder.Some? ==>
              && IsSubsequence(r, newOrder.value)
              && (forall id | id in r :: id in IdSet(loaded))
              && (forall id | id in newOrder.value && id in IdSet(loaded) :: id in r)
              && (forall id | id in newOrder.value ::
                    multiset(r)[id] == if id in IdSet(loaded) then multiset(newOrder.value)[id] else 0)
  {
    if newOrder.None? then current
    else
      SelectIsSubsequence(newOrder.value, IsLoaded(IdSet(loaded)));
      SelectCounts(newOrder.value, IsLoaded(IdSet(loaded)));
      Select(newOrder.value, IsLoaded(IdSet(loaded)))
  }

  /** An order made only of loaded ids is kept as it is. */
  lemma FilterOrderKeepsValid(newOrder: seq<int>, loaded: seq<Record>, current: seq<int>)
    requires forall id | id in newOrder :: id in IdSet(loaded)
    ensures FilterOrder(Some(newOrder), loaded, current) == newOrder
  {
    assert forall x :: x in newOrder ==> IsLoaded(IdSet(loaded))(x);
    SelectAll(newOrder, IsLoaded(IdSet(loaded)));
  }

  /** The server accepts the order the client sends, as long as the loaded
      records came from the server's store. */
  lemma ServerAcceptsFilteredOrder(newOrder: seq<int>, loaded: seq<Record>, current: seq<int>,
                                   store: seq<Record>)
    requires IdSet(loaded) <= IdSet(store)
    ensures ItemServer.InvalidIds(FilterOrder(Some(newOrder), loaded, current), store) == []
  {
  }
}
