/** The arithmetic of the Contacts table's client-side pagination:
    the page count, the clamp of the page number and the window of the
    list that the pagination loop copies out. */
module Pagination {
  import opened Wrappers

  /** JavaScript's `list[i]`: the element, or `undefined` outside the array
      (negative indices included). */
  function At<T>(list: seq<T>, i: int): Option<T>
  {
    if 0 <= i < |list| then Some(list[i]) else None
  }

  /** Every element of `s`, each wrapped as present. */
  function Somes<T>(s: seq<T>): (r: seq<Option<T>>)
    ensures |r| == |s|
    ensures forall k :: 0 <= k < |s| ==> r[k] == Some(s[k])
  {
    seq(|s|, k requires 0 <= k < |s| => Some(s[k]))
  }

  function Min(a: int, b: int): int
  {
    if a <= b then a else b
  }

  /** `Math.ceil(totalRecords / pageSize)`, in integer arithmetic. */
  function TotalPages(totalRecords: nat, pageSize: int): nat
    requires pageSize > 0
  {
    (totalRecords + pageSize - 1) / pageSize
  }

  /** The page count's pages hold every record, and one page fewer would
      not: it is the ceiling of the quotient (0 pages for 0 records). */
  lemma TotalPagesBounds(totalRecords: nat, pageSize: int)
    requires pageSize > 0
    ensures var pages := TotalPages(totalRecords, pageSize);
      (pages - 1) * pageSize < totalRecords <= pages * pageSize
  {
    var pages := TotalPages(totalRecords, pageSize);
    var rest := (totalRecords + pageSize - 1) % pageSize;
    assert pages * pageSize == totalRecords + pageSize - 1 - rest;
    assert (pages - 1) * pageSize == pages * pageSize - pageSize;
  }

  /** The clamp applied to the page number once the page count is known:
      pages up to 1 become 1, pages at or past the last become the last. */
  function ClampPage(pageNumber: int, totalPages: int): int
  {
    if pageNumber <= 1 then 1
    else if pageNumber >= totalPages then totalPages
    else pageNumber
  }

  /** First index the pagination loop reads for a page. */
  function PageStart(pageNumber: int, pageSize: int): int
  {
    (pageNumber - 1) * pageSize
  }

  /** Index at which the pagination loop stops: the end of the page, or
      `totalRecords` when the loop meets it first and breaks. */
  function PageStop(totalRecords: nat, pageNumber: int, pageSize: int): (stop: int)
    requires pageSize > 0
    ensures PageStart(pageNumber, pageSize) <= stop <= pageNumber * pageSize
  {
    var start := PageStart(pageNumber, pageSize);
    var end := pageNumber * pageSize;
    assert end == start + pageSize;
    if start <= totalRecords < end then totalRecords else end
  }

  /** What the pagination loop pushes into `recordsToDisplay`: the reads
      `list[i]` for `i` from the page start up to the stop index. */
  function PageWindow<T>(list: seq<T>, totalRecords: nat, pageNumber: int, pageSize: int): seq<Option<T>>
    requires pageSize > 0
  {
    var start := PageStart(pageNumber, pageSize);
    var stop := PageStop(totalRecords, pageNumber, pageSize);
    seq(stop - start, k requires 0 <= k < stop - start => At(list, start + k))
  }

  /** The loop of the pagination helper: from the page start up to the
      page end, stop at index `totalRecords`, otherwise push `list[i]`. */
  method CopyPage<T>(list: seq<T>, totalRecords: nat, pageNumber: int, pageSize: int)
    returns (rows: seq<Option<T>>)
    requires pageSize > 0
    ensures rows == PageWindow(list, totalRecords, pageNumber, pageSize)
  {
    rows := [];
    var i := (pageNumber - 1) * pageSize;
    ghost var start := i;
    ghost var stop := PageStop(totalRecords, pageNumber, pageSize);
    while i < pageNumber * pageSize
      invariant start <= i <= stop
      invariant |rows| == i - start
      invariant forall k :: 0 <= k < i - start ==> rows[k] == At(list, start + k)
      decreases pageNumber * pageSize - i
    {
      if i == totalRecords {
        break;
      }
      rows := rows + [At(list, i)];
      i := i + 1;
    }
  }

  // ---------------------------------------------------------------------
  // Page count

  lemma MulMonotone(a: int, b: int, d: int)
    requires a <= b && d > 0
    ensures a * d <= b * d
  {
    assert b * d - a * d == (b - a) * d;
  }

  /** The page count is the only count with the ceiling property, so
      `TotalPages` is exactly `ceil(totalRecords / pageSize)`. */
  lemma {:induction false} TotalPagesIsCeiling(totalRecords: nat, pageSize: int, pages: int)
    requires pageSize > 0
    requires (pages - 1) * pageSize < totalRecords <= pages * pageSize
    ensures pages == TotalPages(totalRecords, pageSize)
  {
    var p := TotalPages(totalRecords, pageSize);
    TotalPagesBounds(totalRecords, pageSize);
    if pages < p {
      MulMonotone(pages, p - 1, pageSize);
    } else if pages > p {
      MulMonotone(p, pages - 1, pageSize);
    }
  }

  /** No records means no pages, and some records mean at least one. */
  lemma TotalPagesZero(totalRecords: nat, pageSize: int)
    requires pageSize > 0
    ensures TotalPages(totalRecords, pageSize) == 0 <==> totalRecords == 0
  {
    var p := TotalPages(totalRecords, pageSize);
    TotalPagesBounds(totalRecords, pageSize);
    if p == 0 {
      assert totalRecords <= 0 * pageSize;
    }
  }

  // ---------------------------------------------------------------------
  // Clamp

  /** After the clamp the page number lies in [1, totalPages] when there is
      at least one page; with no pages it is 1, or 0 when the incoming page
      number was above 1. */
  lemma ClampPageRange(pageNumber: int, totalPages: int)
    requires totalPages >= 0
    ensures var p := ClampPage(pageNumber, totalPages);
      && (totalPages >= 1 ==> 1 <= p <= totalPages)
      && (totalPages == 0 ==> (p == 0 <==> pageNumber > 1) && 0 <= p <= 1)
      && (p == if pageNumber <= 1 then 1 else Min(pageNumber, totalPages))
  {
  }

  /** Clamping twice is clamping once, except that a page number clamped to 0
      (no pages) becomes 1 on the second clamp. */
  lemma ClampPageTwice(pageNumber: int, totalPages: int)
    requires totalPages >= 0
    ensures var p := ClampPage(pageNumber, totalPages);
      ClampPage(p, totalPages) == if p == 0 then 1 else p
  {
  }

  // ---------------------------------------------------------------------
  // Window

  /** The loop never copies more than one page. */
  lemma PageWindowLength<T>(list: seq<T>, totalRecords: nat, pageNumber: int, pageSize: int)
    requires pageSize > 0
    ensures |PageWindow(list, totalRecords, pageNumber, pageSize)| <= pageSize
  {
    var stop := PageStop(totalRecords, pageNumber, pageSize);
    assert pageNumber * pageSize == PageStart(pageNumber, pageSize) + pageSize;
  }

  /** On a page inside the list, the window is exactly the slice of the list
      from the page start to the end of the page or of the list, in order,
      with every element present. */
  lemma {:induction false} VisibleSlice<T>(list: seq<T>, pageNumber: int, pageSize: int)
    requires pageSize > 0
    requires 1 <= pageNumber <= TotalPages(|list|, pageSize)
    ensures var start := (pageNumber - 1) * pageSize;
      && 0 <= start < |list|
      && PageWindow(list, |list|, pageNumber, pageSize) == Somes(list[start..Min(pageNumber * pageSize, |list|)])
  {
    var pages := TotalPages(|list|, pageSize);
    TotalPagesBounds(|list|, pageSize);
    var start := (pageNumber - 1) * pageSize;
    MulMonotone(pageNumber - 1, pages - 1, pageSize);
    MulMonotone(0, pageNumber - 1, pageSize);
    assert 0 <= start < |list|;
    var stop := PageStop(|list|, pageNumber, pageSize);
    assert stop == Min(pageNumber * pageSize, |list|);
    var w := PageWindow(list, |list|, pageNumber, pageSize);
    var slice := Somes(list[start..stop]);
    assert |w| == |slice|;
    forall k | 0 <= k < |w|
      ensures w[k] == slice[k]
    {
      assert w[k] == At(list, start + k);
    }
  }

  /** With no records and the page number left at 1 the loop breaks at once:
      nothing is displayed. */
  lemma EmptyListWindow<T>(list: seq<T>, pageSize: int)
    requires pageSize > 0
    ensures PageWindow(list, 0, 1, pageSize) == []
  {
  }

  /** With no records and the page number clamped to 0 the loop runs over
      the negative indices -pageSize .. -1 and never meets the break: it
      pushes `pageSize` undefined entries. */
  lemma ZeroPageWindow<T>(list: seq<T>, pageSize: int)
    requires pageSize > 0
    ensures var w := PageWindow(list, 0, 0, pageSize);
      |w| == pageSize && forall k :: 0 <= k < |w| ==> w[k] == None
  {
    assert PageStart(0, pageSize) == -pageSize;
    assert PageStop(0, 0, pageSize) == 0;
    var w := PageWindow(list, 0, 0, pageSize);
    forall k | 0 <= k < |w|
      ensures w[k] == None
    {
      assert w[k] == At(list, k - pageSize);
    }
  }
}
