/**
 The pagination arithmetic of the artwork table: the page count, the window
 of numbered page buttons, the "Showing X to Y from Z entries" caption and
 the Prev/Next buttons, as pure integer functions of the current page, the
 page size (`limit`), the catalog size (`total`) and the number of rows
 the current page holds.
 */
module Pagination {
  import opened Arith

  /** The page size. The component starts with 12 and afterwards takes whatever
      limit a response reports; the model assumes that limit is at least 1. */
  type PosInt = x: int | x > 0 witness 1

  /** At most this many numbered page buttons are shown. */
  const MaxButtons: nat := 5

  // ---------------------------------------------------------------------------
  // Page count
  // ---------------------------------------------------------------------------

  /** `Math.ceil(total / limit)`: the fewest pages of `limit` rows that hold
      all `total` records. */
  function TotalPages(total: nat, limit: PosInt): (r: nat)
    ensures r * limit >= total
    ensures r > 0 ==> (r - 1) * limit < total
  {
    (total + limit - 1) / limit
  }

  /** An empty catalog has no pages, a non-empty one at least one. */
  lemma TotalPagesZero(total: nat, limit: PosInt)
    ensures TotalPages(total, limit) == 0 <==> total == 0
  {
  }

  // ---------------------------------------------------------------------------
  // Page-button window
  // ---------------------------------------------------------------------------

  /** The first and last button of the window, as the component computes them:
      centre on `page`, then pull back when the window runs past the last page. */
  function WindowBounds(page: int, totalPages: nat): (int, int) {
    var start := Max(1, page - MaxButtons / 2);
    var end := start + MaxButtons - 1;
    if end > totalPages then
      (Max(1, totalPages - MaxButtons + 1), totalPages)
    else
      (start, end)
  }

  /** The numbered page buttons, left to right. */
  function PageWindow(page: int, totalPages: nat): (w: seq<int>)
    ensures |w| == Min(MaxButtons, totalPages)
    ensures forall i :: 0 <= i < |w| ==> w[i] == w[0] + i
    ensures forall i :: 0 <= i < |w| ==> 1 <= w[i] <= totalPages
    ensures 1 <= page <= totalPages ==> page in w
  {
    var (start, end) := WindowBounds(page, totalPages);
    var w := seq(end - start + 1, i => start + i);
    assert 1 <= page <= totalPages ==> w[page - start] == page;
    w
  }

  /** The window's first button is the current page minus two, clamped so
      the window stays inside `[1, totalPages]`; with its length and
      contiguity this determines the whole window. */
  lemma PageWindowStart(page: int, totalPages: nat)
    requires totalPages > 0
    ensures PageWindow(page, totalPages)[0]
         == Clamp(page - MaxButtons / 2, 1, Max(1, totalPages - MaxButtons + 1))
  {
  }

  /** With no pages there are no buttons, whatever the current page. */
  lemma PageWindowEmpty(page: int)
    ensures PageWindow(page, 0) == []
  {
  }

  /** Away from both ends the current page sits in the middle of five buttons. */
  lemma PageWindowCentred(page: int, totalPages: nat)
    requires 3 <= page <= totalPages - 2
    ensures PageWindow(page, totalPages) == [page - 2, page - 1, page, page + 1, page + 2]
  {
  }

  /** The window at the first page, in the middle and at the last page of twenty. */
  lemma PageWindowExamples()
    ensures PageWindow(1, 20) == [1, 2, 3, 4, 5]
    ensures PageWindow(10, 20) == [8, 9, 10, 11, 12]
    ensures PageWindow(20, 20) == [16, 17, 18, 19, 20]
  {
  }

  // ---------------------------------------------------------------------------
  // "Showing X to Y from Z entries"
  // ---------------------------------------------------------------------------

  datatype Range = Range(from: int, to: int)

  /** The caption's two numbers for a page of `rowCount` rows. */
  function ShowingRange(page: int, limit: PosInt, rowCount: nat): (r: Range)
    ensures rowCount > 0 ==> r.to - r.from + 1 == rowCount
    ensures rowCount > 0 ==> r.from == (page - 1) * limit + 1
    ensures rowCount == 0 ==> r.from == r.to == (page - 1) * limit
  {
    var offset := (page - 1) * limit;
    Range(offset + (if rowCount > 0 then 1 else 0), offset + rowCount)
  }

  /** How many rows the catalog holds on a page: `limit`, except on the last. */
  function RowsOnPage(page: int, limit: PosInt, total: nat): nat {
    var before := (page - 1) * limit;
    if total <= before then 0 else Min(limit, total - before)
  }

  /** On a page the catalog fills, the caption counts records `from..to`
      inside `1..total`, and `to` reaches `total` exactly on the last page. */
  lemma ShowingRangeWithinTotal(page: int, limit: PosInt, total: nat)
    requires 1 <= page <= TotalPages(total, limit)
    ensures var r := ShowingRange(page, limit, RowsOnPage(page, limit, total));
            && 1 <= r.from <= r.to <= total
            && (r.to == total <==> page == TotalPages(total, limit))
  {
  }

  /** The caption on page 2 of twelve full rows, and on an empty first page. */
  lemma ShowingRangeExamples()
    ensures ShowingRange(2, 12, 12) == Range(13, 24)
    ensures ShowingRange(1, 12, 0) == Range(0, 0)
  {
  }

  // ---------------------------------------------------------------------------
  // Prev / Next / numbered buttons
  // ---------------------------------------------------------------------------

  /** Clicking Prev: disabled (no change) exactly on page 1. */
  function PressPrev(page: int): (p: int)
    ensures p == page <==> page == 1
    ensures page != 1 ==> p == page - 1
    ensures page >= 1 ==> p >= 1
  {
    if page == 1 then page else page - 1
  }

  /** Clicking Next as the component writes it: disabled only when
      `page === totalPages`. */
  function PressNextAsWritten(page: int, totalPages: nat): (p: int)
    ensures p == page <==> page == totalPages
    ensures p != page ==> p == page + 1
  {
    if page == totalPages then page else page + 1
  }

  /** With an empty catalog there are no pages, yet Next is enabled on page 1
      and moves to page 2, past the end. */
  lemma NextAsWrittenPassesLastPage()
    ensures TotalPages(0, 12) == 0
    ensures PressNextAsWritten(1, TotalPages(0, 12)) == 2
  {
  }

  /** Clicking Next with the intended guard: disabled on the last page and
      beyond it. From a page inside `[1, max(1, totalPages)]` it stays inside. */
  function PressNext(page: int, totalPages: nat): (p: int)
    ensures p == page <==> page >= totalPages
    ensures p != page ==> p == page + 1
    ensures 1 <= page <= Max(1, totalPages) ==> 1 <= p <= Max(1, totalPages)
  {
    if page >= totalPages then page else page + 1
  }

  /** The two guards disagree only when the current page lies outside
      `[1, totalPages]`, which includes page 1 of an empty catalog. */
  lemma NextGuardsAgreeInRange(page: int, totalPages: nat)
    requires 1 <= page <= totalPages
    ensures PressNextAsWritten(page, totalPages) == PressNext(page, totalPages)
  {
  }

  /** Clicking a numbered button jumps to that page; a page number not in the
      window has no button and changes nothing. */
  function PressPageButton(page: int, totalPages: nat, target: int): (p: int)
    ensures target in PageWindow(page, totalPages) ==> p == target
    ensures target !in PageWindow(page, totalPages) ==> p == page
    ensures p != page ==> 1 <= p <= totalPages
  {
    if target in PageWindow(page, totalPages) then target else page
  }
}
