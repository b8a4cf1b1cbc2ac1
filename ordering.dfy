/** Filtering and the custom-order sort shared by the server's query and the
    client's `applyCustomSorting`.

    Both sides sort with `Array.prototype.sort`, which is stable, and a
    comparator that subtracts two sort keys. The model sorts by an integer key
    with a stable insertion sort; the lemmas below show that the result is a
    permutation, is ordered by the key, keeps the input order among equal
    keys, and is the only sequence with those three properties when keys are
    distinct. */
module Ordering {
  import opened Records

  // ---------------------------------------------------------------------------
  // Filtering (`Array.prototype.filter`).

  /** The elements of `s` that satisfy `p`, in their original order. */
  function Select<T>(s: seq<T>, p: T -> bool): (r: seq<T>)
    ensures |r| <= |s|
    ensures forall x | x in r :: x in s && p(x)
    ensures forall x | x in s && p(x) :: x in r
  {
    if s == [] then [] else (if p(s[0]) then [s[0]] else []) + Select(s[1..], p)
  }

  /** `a` can be obtained from `b` by deleting elements: order is preserved. */
  predicate IsSubsequence<T(==)>(a: seq<T>, b: seq<T>)
    decreases |b|
  {
    if b == [] then a == []
    else if a != [] && a[0] == b[0] then IsSubsequence(a[1..], b[1..])
    else IsSubsequence(a, b[1..])
  }

  lemma SelectCons<T>(h: T, t: seq<T>, p: T -> bool)
    ensures Select([h] + t, p) == (if p(h) then [h] else []) + Select(t, p)
  {
    assert ([h] + t)[1..] == t;
  }

  /** Filtering keeps the relative order of what it keeps. */
  lemma {:induction false} SelectIsSubsequence<T>(s: seq<T>, p: T -> bool)
    ensures IsSubsequence(Select(s, p), s)
  {
    if s != [] {
      SelectIsSubsequence(s[1..], p);
      var r := Select(s[1..], p);
      if p(s[0]) {
        assert Select(s, p) == [s[0]] + r;
        assert ([s[0]] + r)[1..] == r;
      } else {
        assert Select(s, p) == r;
        if r != [] {
          assert r[0] in r;
        }
      }
    }
  }

  lemma {:induction false} SelectAppend<T>(a: seq<T>, b: seq<T>, p: T -> bool)
    ensures Select(a + b, p) == Select(a, p) + Select(b, p)
  {
    if a != [] {
      assert a + b == [a[0]] + (a[1..] + b);
      assert a == [a[0]] + a[1..];
      SelectCons(a[0], a[1..] + b, p);
      SelectCons(a[0], a[1..], p);
      SelectAppend(a[1..], b, p);
    } else {
      assert a + b == b;
    }
  }

  /** Filtering keeps every copy of an element that passes and no copy of one
      that fails. */
  lemma {:induction false} SelectCounts<T>(s: seq<T>, p: T -> bool)
    ensures forall x | x in s :: multiset(Select(s, p))[x] == if p(x) then multiset(s)[x] else 0
  {
    if s != [] {
      SelectCounts(s[1..], p);
      assert s == [s[0]] + s[1..];
      var head := if p(s[0]) then [s[0]] else [];
      assert multiset(Select(s, p)) == multiset(head) + multiset(Select(s[1..], p));
      forall x | x in s
        ensures multiset(Select(s, p))[x] == if p(x) then multiset(s)[x] else 0
      {
        if x !in s[1..] {
          assert multiset(Select(s[1..], p))[x] == 0;
        }
      }
    }
  }

  /** When every element passes, filtering returns the input unchanged. */
  lemma {:induction false} SelectAll<T>(s: seq<T>, p: T -> bool)
    requires forall x :: x in s ==> p(x)
    ensures Select(s, p) == s
  {
    if s != [] {
      SelectAll(s[1..], p);
      assert s == [s[0]] + s[1..];
    }
  }

  // ---------------------------------------------------------------------------
  // The stable sort.

  /** `s` is in ascending key order. */
  ghost predicate SortedBy<T>(s: seq<T>, key: T -> int)
  {
    forall i, j :: 0 <= i < j < |s| ==> key(s[i]) <= key(s[j])
  }

  /** Places `x` after every element whose key is not greater than its own. */
  function Insert<T>(x: T, s: seq<T>, key: T -> int): (r: seq<T>)
    ensures |r| == |s| + 1
  {
    if s == [] then [x]
    else if key(x) < key(s[0]) then [x] + s
    else [s[0]] + Insert(x, s[1..], key)
  }

  /** A stable sort by ascending key: each element, taken in input order, is
      inserted after all earlier elements of equal or smaller key. */
  function StableSort<T>(s: seq<T>, key: T -> int): (r: seq<T>)
    ensures |r| == |s|
  {
    if s == [] then [] else Insert(s[|s| - 1], StableSort(s[..|s| - 1], key), key)
  }

  /** Selects the elements whose key is `k`. */
  function KeyIs<T>(key: T -> int, k: int): T -> bool
  {
    x => key(x) == k
  }

  lemma {:induction false} InsertPermutes<T>(x: T, s: seq<T>, key: T -> int)
    ensures multiset(Insert(x, s, key)) == multiset(s) + multiset{x}
  {
    if s != [] && key(x) >= key(s[0]) {
      InsertPermutes(x, s[1..], key);
      assert s == [s[0]] + s[1..];
    }
  }

  /** The sort only rearranges: its result is a permutation of its input. */
  lemma {:induction false} StableSortPermutes<T>(s: seq<T>, key: T -> int)
    ensures multiset(StableSort(s, key)) == multiset(s)
    ensures |StableSort(s, key)| == |s|
  {
    if s != [] {
      var n := |s| - 1;
      StableSortPermutes(s[..n], key);
      InsertPermutes(s[n], StableSort(s[..n], key), key);
      assert s == s[..n] + [s[n]];
    }
    assert |multiset(StableSort(s, key))| == |StableSort(s, key)|;
  }

  lemma SortedCons<T>(h: T, t: seq<T>, key: T -> int)
    requires SortedBy(t, key)
    requires forall y :: y in t ==> key(h) <= key(y)
    ensures SortedBy([h] + t, key)
  {
    var s := [h] + t;
    forall i, j | 0 <= i < j < |s|
      ensures key(s[i]) <= key(s[j])
    {
      assert s[j] == t[j - 1];
      if i > 0 {
        assert s[i] == t[i - 1];
      } else {
        assert t[j - 1] in t;
      }
    }
  }

  lemma {:induction false} InsertKeepsSorted<T>(x: T, s: seq<T>, key: T -> int)
    requires SortedBy(s, key)
    ensures SortedBy(Insert(x, s, key), key)
  {
    if s == [] {
    } else if key(x) < key(s[0]) {
      forall y | y in s
        ensures key(x) <= key(y)
      {
        var j :| 0 <= j < |s| && s[j] == y;
      }
      SortedCons(x, s, key);
    } else {
      var rest := Insert(x, s[1..], key);
      InsertKeepsSorted(x, s[1..], key);
      InsertPermutes(x, s[1..], key);
      forall y | y in rest
        ensures key(s[0]) <= key(y)
      {
        assert y in multiset(rest);
        if y != x {
          assert y in multiset(s[1..]);
          var j :| 0 <= j < |s[1..]| && s[1..][j] == y;
          assert s[j + 1] == y;
        }
      }
      SortedCons(s[0], rest, key);
    }
  }

  /** The sort's result is in ascending key order. */
  lemma {:induction false} StableSortSorts<T>(s: seq<T>, key: T -> int)
    ensures SortedBy(StableSort(s, key), key)
  {
    if s != [] {
      StableSortSorts(s[..|s| - 1], key);
      InsertKeepsSorted(s[|s| - 1], StableSort(s[..|s| - 1], key), key);
    }
  }

  lemma InsertBeforeAll<T>(x: T, s: seq<T>, key: T -> int)
    requires forall y :: y in s ==> key(x) < key(y)
    ensures Insert(x, s, key) == [x] + s
  {
    if s != [] {
      assert s[0] in s;
    }
  }

  lemma {:induction false} InsertAfterAll<T>(x: T, s: seq<T>, key: T -> int)
    requires forall y :: y in s ==> key(y) <= key(x)
    ensures Insert(x, s, key) == s + [x]
  {
    if s != [] {
      assert s[0] in s;
      forall y | y in s[1..] ensures key(y) <= key(x) {
        var j :| 0 <= j < |s[1..]| && s[1..][j] == y;
        assert s[j + 1] == y;
      }
      InsertAfterAll(x, s[1..], key);
      assert s == [s[0]] + s[1..];
    }
  }

  /** Sorting what is already sorted changes nothing. */
  lemma {:induction false} SortedIsFixpoint<T>(s: seq<T>, key: T -> int)
    requires SortedBy(s, key)
    ensures StableSort(s, key) == s
  {
    if s != [] {
      var n := |s| - 1;
      assert SortedBy(s[..n], key);
      SortedIsFixpoint(s[..n], key);
      forall y | y in s[..n]
        ensures key(y) <= key(s[n])
      {
        var j :| 0 <= j < n && s[..n][j] == y;
      }
      InsertAfterAll(s[n], s[..n], key);
      assert s == s[..n] + [s[n]];
    }
  }

  /** Sorting twice is sorting once. */
  lemma StableSortIdempotent<T>(s: seq<T>, key: T -> int)
    ensures StableSort(StableSort(s, key), key) == StableSort(s, key)
  {
    StableSortSorts(s, key);
    SortedIsFixpoint(StableSort(s, key), key);
  }

  lemma SelectInsertFront<T>(x: T, s: seq<T>, key: T -> int, p: T -> bool)
    requires SortedBy(s, key)
    requires s == [] || key(x) < key(s[0])
    ensures Select(Insert(x, s, key), p) ==
            if p(x) then Insert(x, Select(s, p), key) else Select(s, p)
  {
    assert Insert(x, s, key) == [x] + s;
    SelectCons(x, s, p);
    if p(x) && s != [] {
      SortedTail(s, key);
      forall y | y in Select(s, p)
        ensures key(x) < key(y)
      {
        assert y in s;
      }
      InsertBeforeAll(x, Select(s, p), key);
    }
  }

  lemma {:induction false} SelectInsert<T>(x: T, s: seq<T>, key: T -> int, p: T -> bool)
    requires SortedBy(s, key)
    ensures Select(Insert(x, s, key), p) ==
            if p(x) then Insert(x, Select(s, p), key) else Select(s, p)
  {
    if s == [] || key(x) < key(s[0]) {
      SelectInsertFront(x, s, key, p);
    } else {
      var h, t := s[0], s[1..];
      SortedTail(s, key);
      SelectInsert(x, t, key, p);
      SelectInsertLater(x, h, t, key, p);
    }
  }

  lemma InsertAfterHead<T>(x: T, h: T, t: seq<T>, key: T -> int)
    requires key(h) <= key(x)
    ensures Insert(x, [h] + t, key) == [h] + Insert(x, t, key)
  {
    assert ([h] + t)[0] == h && ([h] + t)[1..] == t;
  }

  lemma SelectInsertLater<T>(x: T, h: T, t: seq<T>, key: T -> int, p: T -> bool)
    requires key(h) <= key(x)
    requires Select(Insert(x, t, key), p) ==
             if p(x) then Insert(x, Select(t, p), key) else Select(t, p)
    ensures Select(Insert(x, [h] + t, key), p) ==
            if p(x) then Insert(x, Select([h] + t, p), key) else Select([h] + t, p)
  {
    var rest := Insert(x, t, key);
    var u := Select(t, p);
    InsertAfterHead(x, h, t, key);
    SelectCons(h, rest, p);
    SelectCons(h, t, p);
    var hs := if p(h) then [h] else [];
    assert Select(Insert(x, [h] + t, key), p) == hs + Select(rest, p);
    assert Select([h] + t, p) == hs + u;
    if p(x) {
      assert Select(rest, p) == Insert(x, u, key);
      if p(h) {
        InsertAfterHead(x, h, u, key);
      } else {
        assert hs + u == u;
      }
    } else {
      assert Select(rest, p) == u;
    }
  }

  lemma StableSortSnoc<T>(init: seq<T>, last: T, key: T -> int)
    ensures StableSort(init + [last], key) == Insert(last, StableSort(init, key), key)
  {
    var q := init + [last];
    assert q[..|q| - 1] == init;
  }

  /** Filtering a sorted list gives the same as sorting the filtered list. */
  lemma {:induction false} SelectCommutesWithSort<T>(s: seq<T>, key: T -> int, p: T -> bool)
    ensures Select(StableSort(s, key), p) == StableSort(Select(s, p), key)
  {
    if s != [] {
      var n := |s| - 1;
      var init, last := s[..n], s[n];
      assert s == init + [last];
      var sortedInit := StableSort(init, key);
      assert StableSort(s, key) == Insert(last, sortedInit, key);
      SelectCommutesWithSort(init, key, p);
      StableSortSorts(init, key);
      SelectInsert(last, sortedInit, key, p);
      SelectAppend(init, [last], p);
      SelectCons(last, [], p);
      if p(last) {
        assert Select(s, p) == Select(init, p) + [last];
        StableSortSnoc(Select(init, p), last, key);
      } else {
        assert Select(s, p) == Select(init, p);
      }
    }
  }

  /** Stability: the elements sharing any one key keep their input order. */
  lemma StableSortIsStable<T>(s: seq<T>, key: T -> int, k: int)
    ensures Select(StableSort(s, key), KeyIs(key, k)) == Select(s, KeyIs(key, k))
  {
    SelectCommutesWithSort(s, key, KeyIs(key, k));
    var same := Select(s, KeyIs(key, k));
    forall i, j | 0 <= i < j < |same|
      ensures key(same[i]) <= key(same[j])
    {
      assert same[i] in same && same[j] in same;
    }
    SortedIsFixpoint(same, key);
  }

  // ---------------------------------------------------------------------------
  // Uniqueness: with distinct keys there is only one sorted permutation.

  /** No two different elements of `s` share a key. */
  ghost predicate KeyInjective<T>(s: seq<T>, key: T -> int)
  {
    forall x, y :: x in s && y in s && key(x) == key(y) ==> x == y
  }

  lemma SortedTail<T>(a: seq<T>, key: T -> int)
    requires a != [] && SortedBy(a, key)
    ensures SortedBy(a[1..], key)
    ensures forall y | y in a :: key(a[0]) <= key(y)
  {
    forall y | y in a
      ensures key(a[0]) <= key(y)
    {
      var i :| 0 <= i < |a| && a[i] == y;
    }
  }

  lemma {:induction false} SortedPermutationUnique<T>(a: seq<T>, b: seq<T>, key: T -> int)
    requires SortedBy(a, key) && SortedBy(b, key)
    requires multiset(a) == multiset(b)
    requires KeyInjective(a, key)
    ensures a == b
  {
    assert |a| == |multiset(a)| == |multiset(b)| == |b|;
    if a != [] {
      assert a[0] in multiset(b) && b[0] in multiset(a);
      SortedTail(a, key);
      SortedTail(b, key);
      assert key(a[0]) <= key(b[0]) && key(b[0]) <= key(a[0]);
      assert a[0] == b[0];
      assert a == [a[0]] + a[1..] && b == [b[0]] + b[1..];
      assert multiset(a[1..]) == multiset(a) - multiset{a[0]};
      assert multiset(b[1..]) == multiset(b) - multiset{b[0]};
      assert multiset(a[1..]) == multiset(b[1..]);
      SortedPermutationUnique(a[1..], b[1..], key);
    }
  }

  /** `s` read back to front. */
  function Reverse<T>(s: seq<T>): (r: seq<T>)
    ensures |r| == |s|
    ensures forall i :: 0 <= i < |s| ==> r[i] == s[|s| - 1 - i]
  {
    seq(|s|, i requires 0 <= i < |s| => s[|s| - 1 - i])
  }

  lemma {:induction false} ReversePermutes<T>(s: seq<T>)
    ensures multiset(Reverse(s)) == multiset(s)
  {
    if s != [] {
      ReversePermutes(s[1..]);
      assert Reverse(s) == Reverse(s[1..]) + [s[0]];
      assert s == [s[0]] + s[1..];
    }
  }

  /** Sorting by the negated key gives the reverse of sorting by the key,
      when no two elements share a key. */
  lemma SortByNegatedKeyIsReverse<T>(s: seq<T>, up: T -> int, down: T -> int)
    requires forall x :: down(x) == -up(x)
    requires KeyInjective(s, up)
    ensures StableSort(s, down) == Reverse(StableSort(s, up))
  {
    var asc := StableSort(s, up);
    var desc := StableSort(s, down);
    var rev := Reverse(asc);
    StableSortPermutes(s, up);
    StableSortPermutes(s, down);
    StableSortSorts(s, up);
    StableSortSorts(s, down);
    ReversePermutes(asc);
    forall i, j | 0 <= i < j < |rev|
      ensures down(rev[i]) <= down(rev[j])
    {
      assert up(asc[|asc| - 1 - j]) <= up(asc[|asc| - 1 - i]);
    }
    forall x, y | x in desc && y in desc && down(x) == down(y)
      ensures x == y
    {
      assert x in multiset(desc) && y in multiset(desc);
      assert x in s && y in s;
    }
    SortedPermutationUnique(desc, rev, down);
  }

  // ---------------------------------------------------------------------------
  // Custom order: rank of an id, the map that holds it, and the sort key.

  /** `itemOrder.forEach((id, index) => orderMap.set(id, index))`: each id
      maps to the LAST index where it occurs, since a later `set` overwrites. */
  function RankMap(order: seq<int>): (m: map<int, nat>)
    ensures forall id :: id in m <==> id in order
    ensures forall id | id in m ::
      m[id] < |order| && order[m[id]] == id &&
      forall j | m[id] < j < |order| :: order[j] != id
  {
    if order == [] then map[]
    else RankMap(order[..|order| - 1])[order[|order| - 1] := |order| - 1]
  }

  /** Builds the rank map with the source's loop. */
  method BuildRankMap(order: seq<int>) returns (m: map<int, nat>)
    ensures m == RankMap(order)
  {
    m := map[];
    var i := 0;
    while i < |order|
      invariant 0 <= i <= |order|
      invariant m == RankMap(order[..i])
    {
      assert order[..i + 1][..i] == order[..i];
      m := m[order[i] := i];
      i := i + 1;
    }
    assert order[..|order|] == order;
  }

  /** What the comparator sees for one record: its position in the order,
      or `Infinity` for an id the order does not mention. */
  datatype Rank = Position(index: nat) | Infinity

  /** An id's place in the order map, `Infinity` when it has none. */
  function RankOf(m: map<int, nat>, id: int): (r: Rank)
    ensures r.Position? <==> id in m
    ensures r.Position? ==> r.index == m[id]
  {
    if id in m then Position(m[id]) else Infinity
  }

  /** The comparator `orderA - orderB`. A finite minus `Infinity` is negative and
      the reverse positive (returned as -1 and 1); `Infinity - Infinity` is NaN,
      which the sort treats as 0. */
  function CompareRanks(a: Rank, b: Rank): (c: int)
    ensures c == 0 <==> a == b
    ensures c < 0 <==> a.Position? && (b.Infinity? || a.index < b.index)
    ensures c > 0 <==> b.Position? && (a.Infinity? || b.index < a.index)
  {
    match (a, b)
    case (Position(x), Position(y)) => x - y
    case (Position(_), Infinity) => -1
    case (Infinity, Position(_)) => 1
    case (Infinity, Infinity) => 0
  }

  /** The integer sort key that stands for a rank: ids outside the order get
      `bound`, which is above every index of the order. */
  function ByRank(m: map<int, nat>, bound: nat): Record -> int
  {
    (r: Record) => if r.id in m then m[r.id] else bound
  }

  /** The sort key of the custom order. */
  function OrderKey(order: seq<int>): Record -> int
  {
    ByRank(RankMap(order), |order|)
  }

  /** The integer key orders two records exactly as the source's comparator
      does: same sign, so the same stable sort. */
  lemma OrderKeyAgreesWithComparator(order: seq<int>, a: Record, b: Record)
    ensures var c := CompareRanks(RankOf(RankMap(order), a.id), RankOf(RankMap(order), b.id));
            var d := OrderKey(order)(a) - OrderKey(order)(b);
            (c < 0 <==> d < 0) && (c == 0 <==> d == 0)
  {
  }

  /** Ranked records come first, by ascending last position; unranked ones after. */
  lemma CustomSortRankedFirst(s: seq<Record>, order: seq<int>, i: int, j: int)
    requires 0 <= i < j < |StableSort(s, OrderKey(order))|
    ensures var r := StableSort(s, OrderKey(order));
            r[j].id in order ==>
              r[i].id in order && RankMap(order)[r[i].id] <= RankMap(order)[r[j].id]
  {
    var r := StableSort(s, OrderKey(order));
    StableSortSorts(s, OrderKey(order));
    assert OrderKey(order)(r[i]) <= OrderKey(order)(r[j]);
  }

  lemma RankMapExample()
    ensures RankMap([5, 3, 1]) == map[5 := 0, 3 := 1, 1 := 2]
  {
    assert [5, 3, 1][..2] == [5, 3] && [5, 3][..1] == [5] && [5][..0] == [];
    assert RankMap([5]) == map[5 := 0];
    assert RankMap([5, 3]) == map[5 := 0, 3 := 1];
  }

  /** The order [5, 3, 1] over ids 1..5 gives 5, 3, 1, then 2 and 4 in store order. */
  lemma CustomOrderExample(r1: Record, r2: Record, r3: Record, r4: Record, r5: Record)
    requires r1.id == 1 && r2.id == 2 && r3.id == 3 && r4.id == 4 && r5.id == 5
    ensures StableSort([r1, r2, r3, r4, r5], OrderKey([5, 3, 1])) == [r5, r3, r1, r2, r4]
  {
    var key := OrderKey([5, 3, 1]);
    RankMapExample();
    assert key(r1) == 2 && key(r2) == 3 && key(r3) == 1 && key(r4) == 3 && key(r5) == 0;
    SortFiveExample(r1, r2, r3, r4, r5, key);
  }

  lemma SortFiveExample<T>(r1: T, r2: T, r3: T, r4: T, r5: T, key: T -> int)
    requires key(r1) == 2 && key(r2) == 3 && key(r3) == 1 && key(r4) == 3 && key(r5) == 0
    ensures StableSort([r1, r2, r3, r4, r5], key) == [r5, r3, r1, r2, r4]
  {
    StableSortSnoc([], r1, key);
    assert [] + [r1] == [r1];
    assert StableSort([r1], key) == [r1];
    StableSortSnoc([r1], r2, key);
    assert [r1] + [r2] == [r1, r2];
    InsertAfterHead(r2, r1, [], key);
    assert StableSort([r1, r2], key) == [r1, r2];
    StableSortSnoc([r1, r2], r3, key);
    assert [r1, r2] + [r3] == [r1, r2, r3];
    assert StableSort([r1, r2, r3], key) == [r3, r1, r2];
    StableSortSnoc([r1, r2, r3], r4, key);
    assert [r1, r2, r3] + [r4] == [r1, r2, r3, r4];
    InsertAfterHead(r4, r2, [], key);
    InsertAfterHead(r4, r1, [r2], key);
    InsertAfterHead(r4, r3, [r1, r2], key);
    assert StableSort([r1, r2, r3, r4], key) == [r3, r1, r2, r4];
    StableSortSnoc([r1, r2, r3, r4], r5, key);
    assert [r1, r2, r3, r4] + [r5] == [r1, r2, r3, r4, r5];
  }
}
