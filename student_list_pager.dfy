/**
 * The Previous/Next pager under the student list: the current page, the page
 * count reported by the list endpoint, and the two buttons that move between
 * pages.
 */
module StudentListPager {
  import StudentApi

  /** The list page always asks for ten students per page. */
  const PageSize: int := 10

  /** The page the Previous button moves to: one back, but never below 1. */
  function PreviousPage(page: int): (r: int)
    ensures r >= 1
    ensures page >= 1 ==> r <= page
    ensures r == page <==> page == 1
    ensures page > 1 ==> r == page - 1
    ensures page <= 1 ==> r == 1
  {
    if page > 1 then page - 1 else 1
  }

  /** The page the Next button moves to: one forward, but never beyond the page count. */
  function NextPage(page: int, totalPages: int): (r: int)
    ensures r <= totalPages
    ensures page <= totalPages ==> r >= page
    ensures r == page <==> page == totalPages
    ensures page < totalPages ==> r == page + 1
    ensures page >= totalPages ==> r == totalPages
  {
    if page < totalPages then page + 1 else totalPages
  }

  predicate PreviousDisabled(page: int)
  {
    page == 1
  }

  predicate NextDisabled(page: int, totalPages: int)
  {
    page == totalPages
  }

  /** The pager is rendered only when there is more than one page. */
  predicate ControlsShown(totalPages: int)
  {
    totalPages > 1
  }

  /** The current page lies within the page count. */
  predicate InRange(page: int, totalPages: int)
  {
    1 <= page <= totalPages
  }

  /** The list page's paging state. */
  class Pager {
    var page: int
    var totalPages: int

    ghost predicate Valid()
      reads this
    {
      InRange(page, totalPages)
    }

    /** Before anything is fetched: page 1 of 1. */
    constructor ()
      ensures page == 1 && totalPages == 1
      ensures Valid() && !ControlsShown(totalPages)
    {
      page := 1;
      totalPages := 1;
    }

    /** The Previous button's click handler. */
    method Previous()
      modifies this
      ensures page == PreviousPage(old(page)) && totalPages == old(totalPages)
      ensures old(Valid()) ==> Valid()
      ensures page == old(page) <==> PreviousDisabled(old(page))
    {
      page := if page > 1 then page - 1 else 1;
    }

    /** The Next button's click handler. */
    method Next()
      modifies this
      ensures page == NextPage(old(page), old(totalPages)) && totalPages == old(totalPages)
      ensures old(Valid()) ==> Valid()
      ensures page == old(page) <==> NextDisabled(old(page), old(totalPages))
    {
      page := if page < totalPages then page + 1 else totalPages;
    }

    /** A list response arrived: the page count is replaced by the reported one, the page is kept. */
    method Loaded(pages: int)
      modifies this
      ensures totalPages == pages && page == old(page)
      ensures Valid() <==> 1 <= old(page) <= pages
    {
      totalPages := pages;
    }
  }

  /** Previous and Next keep the current page within `1 .. totalPages`. */
  lemma StepsStayInRange(page: int, totalPages: int)
    requires InRange(page, totalPages)
    ensures InRange(PreviousPage(page), totalPages)
    ensures InRange(NextPage(page, totalPages), totalPages)
  {
  }

  /**
   * A button is disabled exactly when pressing it would leave the page where
   * it is, which within range means exactly at the first or the last page.
   */
  lemma DisabledAtBounds(page: int, totalPages: int)
    requires InRange(page, totalPages)
    ensures PreviousDisabled(page) <==> PreviousPage(page) == page
    ensures NextDisabled(page, totalPages) <==> NextPage(page, totalPages) == page
    ensures PreviousDisabled(page) <==> page == 1
    ensures NextDisabled(page, totalPages) <==> page == totalPages
  {
  }

  /** Whenever the pager is shown, at least one of its buttons is enabled. */
  lemma ShownPagerCanMove(page: int, totalPages: int)
    requires InRange(page, totalPages) && ControlsShown(totalPages)
    ensures !PreviousDisabled(page) || !NextDisabled(page, totalPages)
  {
  }

  /**
   * Starting in range, any run of Previous and Next presses stays in range.
   * `presses[i]` is true for Next and false for Previous.
   */
  lemma {:induction false} PressesStayInRange(page: int, totalPages: int, presses: seq<bool>)
    requires InRange(page, totalPages)
    ensures InRange(AfterPresses(page, totalPages, presses), totalPages)
    decreases |presses|
  {
    if presses != [] {
      var next := if presses[0] then NextPage(page, totalPages) else PreviousPage(page);
      StepsStayInRange(page, totalPages);
      PressesStayInRange(next, totalPages, presses[1..]);
    }
  }

  /** The page after a run of presses, `presses[i]` true for Next and false for Previous. */
  function AfterPresses(page: int, totalPages: int, presses: seq<bool>): int
    decreases |presses|
  {
    if presses == [] then page
    else
      var next := if presses[0] then NextPage(page, totalPages) else PreviousPage(page);
      AfterPresses(next, totalPages, presses[1..])
  }

  /**
   * After the list page fetches page `page` and takes the reported page count,
   * the pager is in range exactly when that page held at least one student.
   */
  lemma FetchedPageInRange(rows: seq<StudentApi.Student>, page: int)
    requires page >= 1
    ensures var listed := StudentApi.List(rows, page, PageSize);
            InRange(page, listed.pagination.pages) <==> listed.students != []
  {
    StudentApi.PageNonEmptyIff(rows, page, PageSize);
  }
}
