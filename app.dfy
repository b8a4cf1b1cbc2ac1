/** The sort header of the table page: a click on a column header. */
module App {
  import opened Records
  import opened Ordering
  import opened UseItems

  /** `handleSort(column)`: the same column flips the direction (anything but
      `asc` becomes `asc`), another column is sorted ascending. */
  function HandleSort(s: SortState, column: string): (t: SortState)
    ensures t.sortBy == column
    ensures t.sortOrder == "asc" || t.sortOrder == "desc"
    ensures s.sortBy == column ==> t.sortOrder != s.sortOrder
    ensures s.sortBy == column ==> (t.sortOrder == "desc" <==> s.sortOrder == "asc")
    ensures s.sortBy != column ==> t.sortOrder == "asc"
  {
    if s.sortBy == column then SortState(s.sortBy, if s.sortOrder == "asc" then "desc" else "asc")
    else SortState(column, "asc")
  }

  /** Two clicks on the sorted column give back the starting state. */
  lemma DoubleClickRestores(s: SortState, column: string)
    requires s.sortBy == column && (s.sortOrder == "asc" || s.sortOrder == "desc")
    ensures HandleSort(HandleSort(s, column), column) == s
  {
  }

  /** A stored direction other than `asc` or `desc` (say `ASC`, restored from
      local storage) becomes `asc` on a click on the sorted column. */
  lemma UnknownOrderClickAscends()
    ensures HandleSort(SortState("id", "ASC"), "id") == SortState("id", "asc")
  {
  }

  /** Two clicks on a new column sort it descending. */
  lemma NewColumnTwiceDescends(s: SortState, column: string)
    requires s.sortBy != column
    ensures HandleSort(HandleSort(s, column), column) == SortState(column, "desc")
  {
  }

  /** From the reset state a click on `id` sorts descending by id. */
  lemma ClickIdAfterReset(s: SortState)
    ensures HandleSort(ResetSorting(s), "id") == SortState("id", "desc")
  {
  }

  /** With no search, clicking the numeric column already sorted reverses the
      list shown, provided its values are distinct. */
  lemma ClickAgainReverses(items: seq<Record>, s: SortState, itemOrder: seq<int>, collate: string -> int)
    requires s.sortBy == "id" || s.sortBy == "value"
    requires s.sortOrder == "asc" || s.sortOrder == "desc"
    requires KeyInjective(items, NumericKey(s.sortBy, 1))
    ensures var t := HandleSort(s, s.sortBy);
            ApplySorting(items, t.sortBy, t.sortOrder, itemOrder, "", collate) ==
            Reverse(ApplySorting(items, s.sortBy, s.sortOrder, itemOrder, "", collate))
  {
    var asc := ApplySorting(items, s.sortBy, "asc", itemOrder, "", collate);
    DescendingReversesAscending(items, s.sortBy, itemOrder, collate);
    if s.sortOrder == "desc" {
      assert Reverse(Reverse(asc)) == asc;
    }
  }
}
