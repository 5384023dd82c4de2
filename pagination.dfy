/** Client-side pagination of the storefront's product list: how many pages
    the loaded list makes, which items the current page shows, where the
    Back and Next buttons lead, and which page-number buttons are drawn.
    Everything here is a pure function of the number of loaded items (or the
    list itself) and the current page. */
module Pagination {

  /** Number of products shown on one page. */
  const ItemsPerPage: nat := 3

  function Min(a: int, b: int): int { if a <= b then a else b }

  function Max(a: int, b: int): int { if a >= b then a else b }

  // ---------------------------------------------------------------------
  // Page count
  // ---------------------------------------------------------------------

  /** `Math.ceil(count / ITEMS_PER_PAGE)`, computed on integers: the least
      number of pages of `ItemsPerPage` items that holds `count` items. */
  function TotalPages(count: nat): (r: nat)
    ensures r * ItemsPerPage >= count
    ensures forall k: nat :: k * ItemsPerPage >= count ==> r <= k
    ensures r == 0 <==> count == 0
    ensures count > 0 ==> (r - 1) * ItemsPerPage < count
  {
    (count + ItemsPerPage - 1) / ItemsPerPage
  }

  // ---------------------------------------------------------------------
  // The current page's items
  // ---------------------------------------------------------------------

  /** How `Array.prototype.slice` turns one of its arguments into a position
      of a list of length `len`: a negative argument counts back from the
      end (and stops at 0), a non-negative one stops at `len`. */
  function SliceBound(i: int, len: nat): (r: nat)
    ensures r <= len
    ensures 0 <= i ==> r == Min(i, len)
    ensures i < 0 ==> r == Max(len + i, 0)
  {
    if i < 0 then (if len + i < 0 then 0 else len + i)
    else if i < len then i
    else len
  }

  /** `s.slice(start, end)`: the items from the first bound up to (not
      including) the second, or nothing when the second bound is not past
      the first. */
  function Slice<T>(s: seq<T>, start: int, end: int): (r: seq<T>)
    ensures |r| <= |s|
    ensures SliceBound(start, |s|) + |r| <= |s|
    ensures |r| == Max(SliceBound(end, |s|) - SliceBound(start, |s|), 0)
    ensures forall i :: 0 <= i < |r| ==> r[i] == s[SliceBound(start, |s|) + i]
  {
    var lo, hi := SliceBound(start, |s|), SliceBound(end, |s|);
    if lo < hi then s[lo..hi] else []
  }

  /** `paginatedPosts`: the items the grid shows while `page` is current.
      Whatever the page, that is never more than `ItemsPerPage` items, taken
      in order from consecutive positions of the list; page 0 shows none. */
  function PageItems<T>(posts: seq<T>, page: int): (r: seq<T>)
    ensures |r| <= ItemsPerPage
    ensures SliceBound((page - 1) * ItemsPerPage, |posts|) + |r| <= |posts|
    ensures forall i :: 0 <= i < |r| ==>
              r[i] == posts[SliceBound((page - 1) * ItemsPerPage, |posts|) + i]
    ensures page == 0 ==> r == []
  {
    Slice(posts, (page - 1) * ItemsPerPage, page * ItemsPerPage)
  }

  /** First and one-past-last index of page `page` (for `page >= 1`), cut
      down to the length of the list. */
  function PageStart(count: nat, page: int): nat
    requires page >= 1
  {
    Min((page - 1) * ItemsPerPage, count)
  }

  function PageEnd(count: nat, page: int): nat
    requires page >= 1
  {
    Min(page * ItemsPerPage, count)
  }

  /** Page `page >= 1` is exactly the window of `posts` from index
      `(page-1)*ItemsPerPage` up to `page*ItemsPerPage`, cut at the end of
      the list; it never holds more than `ItemsPerPage` items, and its i-th
      item is the item at `(page-1)*ItemsPerPage + i`. */
  lemma PageIsWindow<T>(posts: seq<T>, page: int)
    requires page >= 1
    ensures PageStart(|posts|, page) <= PageEnd(|posts|, page)
    ensures PageItems(posts, page) == posts[PageStart(|posts|, page)..PageEnd(|posts|, page)]
    ensures |PageItems(posts, page)| <= ItemsPerPage
    ensures forall i :: 0 <= i < |PageItems(posts, page)| ==>
              (page - 1) * ItemsPerPage + i < |posts| &&
              PageItems(posts, page)[i] == posts[(page - 1) * ItemsPerPage + i]
  {
  }

  /** Every page from 1 to the page count shows at least one item; every
      page before the last is full, and the last holds what is left over. */
  lemma PageInRangeIsNonEmpty<T>(posts: seq<T>, page: int)
    requires 1 <= page <= TotalPages(|posts|)
    ensures 1 <= |PageItems(posts, page)| <= ItemsPerPage
    ensures page < TotalPages(|posts|) ==> |PageItems(posts, page)| == ItemsPerPage
    ensures page == TotalPages(|posts|) ==>
              |PageItems(posts, page)| == |posts| - (page - 1) * ItemsPerPage
  {
    PageIsWindow(posts, page);
  }

  /** A page past the page count shows nothing, and so does page 0 (the
      page the empty list's Next button leads to: `slice(-3, 0)`). */
  lemma PageOutOfRangeIsEmpty<T>(posts: seq<T>, page: int)
    requires page == 0 || page > TotalPages(|posts|)
    ensures PageItems(posts, page) == []
  {
  }

  /** The item at index `i` of the list is shown on page `i / ItemsPerPage + 1`,
      at position `i % ItemsPerPage`, and that page is one of the numbered
      pages. */
  lemma ItemShownOnItsPage<T>(posts: seq<T>, i: nat)
    requires i < |posts|
    ensures 1 <= i / ItemsPerPage + 1 <= TotalPages(|posts|)
    ensures i % ItemsPerPage < |PageItems(posts, i / ItemsPerPage + 1)|
    ensures PageItems(posts, i / ItemsPerPage + 1)[i % ItemsPerPage] == posts[i]
  {
    PageIsWindow(posts, i / ItemsPerPage + 1);
  }

  // ---------------------------------------------------------------------
  // The pages tile the list
  // ---------------------------------------------------------------------

  /** The items of pages 1 to `k`, one page after the other. */
  function PagesUpTo<T>(posts: seq<T>, k: nat): seq<T>
  {
    if k == 0 then [] else PagesUpTo(posts, k - 1) + PageItems(posts, k)
  }

  /** Pages 1 to `k` together are the first `k * ItemsPerPage` items of the
      list (or the whole list, if it is shorter). */
  lemma {:induction false} PagesUpToIsPrefix<T>(posts: seq<T>, k: nat)
    ensures PagesUpTo(posts, k) == posts[..Min(k * ItemsPerPage, |posts|)]
  {
    if k > 0 {
      PagesUpToIsPrefix(posts, k - 1);
      PageIsWindow(posts, k);
      var lo, hi := PageStart(|posts|, k), PageEnd(|posts|, k);
      assert lo == Min((k - 1) * ItemsPerPage, |posts|);
      assert posts[..lo] + posts[lo..hi] == posts[..hi];
    }
  }

  /** Showing pages 1 to the page count in order shows every loaded item
      exactly once, in the order they were loaded. */
  lemma PagesTileList<T>(posts: seq<T>)
    ensures PagesUpTo(posts, TotalPages(|posts|)) == posts
  {
    PagesUpToIsPrefix(posts, TotalPages(|posts|));
  }

  // ---------------------------------------------------------------------
  // Back and Next
  // ---------------------------------------------------------------------

  /** Back is drawn disabled on page 1: exactly the page on which a click
      would not move. */
  predicate BackDisabled(page: int)
    ensures BackDisabled(page) <==> BackTarget(page) == page
  {
    page == 1
  }

  /** Next is drawn disabled when the current page equals the page count
      (note: when there are no pages, page 1 does not, so Next is live):
      exactly the page on which a click would not move. */
  predicate NextDisabled(page: int, totalPages: nat)
    ensures NextDisabled(page, totalPages) <==> NextTarget(page, totalPages) == page
  {
    page == totalPages
  }

  /** Where a Back click leads: `Math.max(p - 1, 1)`. It never goes below
      page 1 nor past the page it starts from (so a page in `[1, totalPages]`
      stays there), steps back by one from any later page, stays put on
      page 1. */
  function BackTarget(page: int): (r: int)
    ensures r >= 1
    ensures page > 1 ==> r == page - 1
    ensures page <= 1 ==> r == 1
    ensures page >= 1 ==> r <= page
  {
    Max(page - 1, 1)
  }

  /** Where a Next click leads: `Math.min(p + 1, totalPages)`. From a page
      in `[1, totalPages]` it stays in that range, steps forward by one from
      any earlier page and stays put on the last page. */
  function NextTarget(page: int, totalPages: nat): (r: int)
    ensures r <= totalPages
    ensures page < totalPages ==> r == page + 1
    ensures page >= totalPages ==> r == totalPages
    ensures 1 <= page <= totalPages ==> 1 <= r <= totalPages
  {
    Min(page + 1, totalPages)
  }

  /** With nothing loaded there are no pages, yet on page 1 the Next button
      is live and leads to page 0: a page outside `[1, totalPages]` that
      shows nothing, whose own Next button is disabled, and which Back
      leaves for page 1. */
  lemma EmptyListNextEscapes<T>(posts: seq<T>)
    requires posts == []
    ensures TotalPages(|posts|) == 0
    ensures !NextDisabled(1, TotalPages(|posts|))
    ensures NextTarget(1, TotalPages(|posts|)) == 0
    ensures PageItems(posts, 0) == []
    ensures NextDisabled(0, TotalPages(|posts|))
    ensures !BackDisabled(0) && BackTarget(0) == 1
  {
  }

  /** Once items have been loaded, page 0 (reached while the list was still
      empty) still shows nothing, and either button brings the user to page 1. */
  lemma ZeroPageAfterLoad<T>(posts: seq<T>)
    requires posts != []
    ensures PageItems(posts, 0) == []
    ensures !NextDisabled(0, TotalPages(|posts|)) && NextTarget(0, TotalPages(|posts|)) == 1
    ensures !BackDisabled(0) && BackTarget(0) == 1
  {
    PageOutOfRangeIsEmpty(posts, 0);
  }

  // ---------------------------------------------------------------------
  // Page-number buttons
  // ---------------------------------------------------------------------

  /** `Array.from({ length: totalPages }, (_, index) => index + 1)`: one
      button per page, numbered from 1, in increasing order; a number is on
      a button exactly when it lies in `[1, totalPages]`. */
  function PageNumbers(totalPages: nat): (r: seq<int>)
    ensures |r| == totalPages
    ensures forall i, j :: 0 <= i < j < |r| ==> r[i] < r[j]
    ensures forall n :: n in r <==> 1 <= n <= totalPages
    ensures totalPages > 0 ==> r[0] == 1 && r[totalPages - 1] == totalPages
  {
    var r := seq(totalPages, index => index + 1);
    forall n | 1 <= n <= totalPages
      ensures n in r
    {
      assert r[n - 1] == n;
    }
    r
  }

  /** The button drawn as current is the one at position `page - 1` when
      the page is one of the numbered pages, and no button otherwise. */
  lemma CurrentButton(totalPages: nat, page: int)
    ensures forall i :: 0 <= i < totalPages ==>
              (PageNumbers(totalPages)[i] == page <==> i == page - 1)
    ensures page !in PageNumbers(totalPages) <==> !(1 <= page <= totalPages)
  {
  }
}
