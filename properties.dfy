/** What repeated pagination, page navigation and the two button getters
    amount to, over the component states of ContactsState. */
module ContactsProperties {
  import opened Wrappers
  import opened Pagination
  import opened ContactsState

  /** The page number comes out 0 exactly when there are no records and the
      incoming page number was above 1 (say, "next" pressed on an empty
      table, or a search with no hits run from page 2). */
  lemma PaginateToZero(v: View)
    requires v.pageSize > 0
    ensures Paginate(v).pageNumber == 0 <==> v.totalRecords == 0 && v.pageNumber > 1
  {
    TotalPagesZero(v.totalRecords, v.pageSize);
  }

  /** A second pagination changes nothing, except in the zero case, where it
      moves page 0 to page 1 and empties the display. */
  lemma PaginateTwice(v: View)
    requires v.pageSize > 0
    ensures var once := Paginate(v);
      && (once.pageNumber != 0 ==> Paginate(once) == once)
      && (once.pageNumber == 0 ==>
            Paginate(once) == once.(pageNumber := 1, recordsToDisplay := []) && once.recordsToDisplay != [])
  {
    var once := Paginate(v);
    ClampPageTwice(v.pageNumber, once.totalPages);
    if once.pageNumber == 0 {
      PaginateToZero(v);
      ZeroPageWindow(v.contactsList, v.pageSize);
      EmptyListWindow(v.contactsList, v.pageSize);
    }
  }

  /** In a consistent state on a real page the displayed rows are exactly
      that page's slice of the list, at most a page of them, all present. */
  lemma {:induction false} ShownRows(v: View)
    requires Consistent(v) && v.pageNumber >= 1 && v.totalRecords > 0
    ensures var start := (v.pageNumber - 1) * v.pageSize;
      && 0 <= start < |v.contactsList|
      && v.recordsToDisplay == Somes(v.contactsList[start..Min(v.pageNumber * v.pageSize, v.totalRecords)])
      && |v.recordsToDisplay| <= v.pageSize
  {
    TotalPagesZero(v.totalRecords, v.pageSize);
    VisibleSlice(v.contactsList, v.pageNumber, v.pageSize);
    PageWindowLength(v.contactsList, v.totalRecords, v.pageNumber, v.pageSize);
  }

  /** In a consistent state with no records the table shows nothing on page
      1, and a page of undefined rows on page 0. */
  lemma EmptyTableRows(v: View)
    requires Consistent(v) && v.totalRecords == 0
    ensures v.pageNumber == 1 ==> v.recordsToDisplay == []
    ensures v.pageNumber == 0 ==>
      |v.recordsToDisplay| == v.pageSize && forall k :: 0 <= k < |v.recordsToDisplay| ==> v.recordsToDisplay[k] == None
    ensures v.pageNumber == 0 || v.pageNumber == 1
  {
    EmptyListWindow(v.contactsList, v.pageSize);
    ZeroPageWindow(v.contactsList, v.pageSize);
  }

  /** Where each navigation button lands from a settled state. */
  lemma Navigation(v: View)
    requires Settled(v)
    ensures FirstPage(v).pageNumber == 1
    ensures v.pageNumber == 1 ==> PreviousPage(v).pageNumber == 1
    ensures 1 < v.pageNumber <= v.totalPages ==> PreviousPage(v).pageNumber == v.pageNumber - 1
    ensures v.pageNumber == 0 ==> PreviousPage(v).pageNumber == 1
    ensures 1 <= v.pageNumber < v.totalPages ==> NextPage(v).pageNumber == v.pageNumber + 1
    ensures v.totalPages >= 1 && v.pageNumber == v.totalPages ==> NextPage(v).pageNumber == v.totalPages
    ensures LastPage(v).pageNumber == if v.totalPages >= 1 then v.totalPages else 1
  {
  }

  /** The navigation handlers keep the component invariant. */
  lemma NavigationConsistent(v: View)
    requires Consistent(v)
    ensures Consistent(FirstPage(v)) && Consistent(PreviousPage(v))
    ensures Consistent(NextPage(v)) && Consistent(LastPage(v))
  {
  }

  /** "First"/"previous" are disabled exactly when "previous" would not move
      the page; "last"/"next" are disabled exactly when "next" would not,
      on every page but the page 0 of an empty table. */
  lemma ButtonsMatchMoves(v: View)
    requires Settled(v)
    ensures DisableFirst(v) <==> PreviousPage(v).pageNumber == v.pageNumber
    ensures v.pageNumber >= 1 ==> (DisableLast(v) <==> NextPage(v).pageNumber == v.pageNumber)
    ensures v.pageNumber == 0 ==> DisableLast(v) && NextPage(v).pageNumber == 1
  {
  }

  /** With no records the table has no pages, so at page 1 "first" is
      disabled but "last" and "next" stay enabled. */
  lemma EmptyTableButtons(v: View)
    requires Settled(v) && v.totalRecords == 0 && v.pageNumber == 1
    ensures v.totalPages == 0 && DisableFirst(v) && !DisableLast(v)
  {
    TotalPagesZero(v.totalRecords, v.pageSize);
  }

  /** Five rows per page over twelve records: three pages; page 1 shows
      rows 0-4; two "next" presses reach page 3, which shows rows 10-11;
      a third press stays on page 3. */
  lemma {:induction false} TwelveRecordsByFive(list: seq<Record>, v: View)
    requires |list| == 12
    requires v.pageSize == 5 && v.pageNumber == 1 && v.contactsList == list && v.totalRecords == 12
    ensures var p1 := Paginate(v);
      && p1.totalPages == 3 && p1.pageNumber == 1 && p1.recordsToDisplay == Somes(list[0..5])
      && NextPage(NextPage(p1)).pageNumber == 3
      && NextPage(NextPage(p1)).recordsToDisplay == Somes(list[10..12])
      && NextPage(NextPage(NextPage(p1))) == NextPage(NextPage(p1))
  {
    TotalPagesIsCeiling(12, 5, 3);
    var p1 := Paginate(v);
    VisibleSlice(list, 1, 5);
    var p2 := NextPage(p1);
    var p3 := NextPage(p2);
    VisibleSlice(list, 3, 5);
    assert p3.pageNumber == 3;
    assert p3.recordsToDisplay == Somes(list[10..12]);
  }
}
