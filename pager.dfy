/** The component's navigation state: the loaded product list and the
    current page number, changed by the result of the initial load and by
    clicks on Back, Next and the page-number buttons. */
module Pager {
  import opened Pagination

  class PagerState<T> {
    /** The loaded products (`posts`); empty until the load finishes. */
    var posts: seq<T>
    /** The current page (`page`). */
    var page: int

    /** No click ever takes the page below 0: Back leads to at least 1, and
        Next leads to `min(page + 1, totalPages)`, where both are
        non-negative when `page` is. */
    predicate Valid()
      reads this
    {
      page >= 0
    }

    /** `totalPages`, derived from the loaded list on every render: just
        enough pages of `ItemsPerPage` to hold every loaded item, and none
        exactly when nothing is loaded. */
    function Total(): (r: nat)
      reads this
      ensures r * ItemsPerPage >= |posts|
      ensures |posts| > 0 ==> (r - 1) * ItemsPerPage < |posts|
      ensures r == 0 <==> posts == []
    {
      TotalPages(|posts|)
    }

    /** The current page is one of the numbered pages. */
    predicate InRange()
      reads this
    {
      1 <= page <= Total()
    }

    /** The items the grid shows for the current page. */
    function Shown(): (r: seq<T>)
      reads this
      ensures |r| <= ItemsPerPage
      ensures InRange() ==> 1 <= |r|
      ensures page == 0 ==> r == []
    {
      var r := PageItems(posts, page);
      if page >= 1 then
        PageIsWindow(posts, page);
        if InRange() then PageInRangeIsNonEmpty(posts, page); r else r
      else if page == 0 then
        PageOutOfRangeIsEmpty(posts, page); r
      else
        r
    }

    /** First render: nothing loaded, page 1. */
    constructor ()
      ensures Valid()
      ensures posts == [] && page == 1
      ensures Total() == 0 && !InRange()
    {
      posts := [];
      page := 1;
    }

    /** The fetched list replaces `posts` (`setPosts(data)`); the page is
        left as it is. */
    method Load(data: seq<T>)
      requires Valid()
      modifies this
      ensures Valid()
      ensures posts == data && page == old(page)
    {
      posts := data;
    }

    /** A click on Back. The button is disabled on page 1, where the
        handler would not have moved the page either. */
    method Back()
      requires Valid()
      modifies this
      ensures Valid()
      ensures page == BackTarget(old(page))
      ensures page >= 1
      ensures old(page) == 1 ==> page == 1
      ensures posts == old(posts)
      ensures old(InRange()) ==> InRange()
    {
      if !BackDisabled(page) {
        page := BackTarget(page);
      }
    }

    /** A click on Next. The button is disabled when the page equals the
        page count, where the handler would not have moved the page either. */
    method Next()
      requires Valid()
      modifies this
      ensures Valid()
      ensures page == NextTarget(old(page), Total())
      ensures old(page) == Total() ==> page == old(page)
      ensures posts == old(posts)
      ensures old(InRange()) ==> InRange()
    {
      var total := TotalPages(|posts|);
      if !NextDisabled(page, total) {
        page := NextTarget(page, total);
      }
    }

    /** A click on the page-number button showing `n`: only the numbers of
        `PageNumbers(Total())` are drawn, and the click makes that page the
        current one. */
    method GoTo(n: int)
      requires Valid()
      requires n in PageNumbers(Total())
      modifies this
      ensures Valid()
      ensures page == n
      ensures InRange()
      ensures posts == old(posts)
    {
      page := n;
    }
  }

  /** A first render followed by a Next click before the list has arrived
      leaves the page at 0; a Back click then brings it to page 1. */
  method EmptyNextThenBack<T>() returns (afterNext: int, afterBack: int)
    ensures afterNext == 0
    ensures afterBack == 1
  {
    var p := new PagerState<T>();
    p.Next();
    afterNext := p.page;
    p.Back();
    afterBack := p.page;
  }
}
