# Fake SHOP pagination, modelled in Dafny

The Fake SHOP storefront loads its whole product list once. It then shows
the list three products at a time. This project models that client-side
pagination:

- the page count (`totalPages`);
- the slice of products the grid shows for the current page (`paginatedPosts`);
- the Back and Next buttons, with their disabled states;
- the row of page-number buttons;
- the component's navigation state: the loaded list and the current page.

A product is an opaque element type `T`: pagination never looks inside one.

`pagination.dfy` (module `Pagination`) holds the pure rules as functions, with
lemmas about them:

- `TotalPages` is `Math.ceil(n / 3)`, written as the integer ceiling `(n + 2) / 3`.
- `Slice` follows `Array.prototype.slice`, including its rule that a negative
  bound counts back from the end of the list.
- `PageItems` is the slice `[(page-1)*3, page*3)`.
- `BackTarget` and `NextTarget` are the two click handlers.
- `PageNumbers` is the list of page-button numbers.

`pager.dfy` (module `Pager`) holds class `PagerState`. Its fields `posts`
and `page` are the component's two pieces of state that pagination uses.
Its methods are:

- `Load`: the fetched list arrives.
- `Back` and `Next`: the two buttons.
- `GoTo`: a page-number button.

Each method states the new state in terms of the pure functions. `Back`,
`Next` and `GoTo` keep the list unchanged and keep the page inside
`[1, totalPages]` when it was inside before. `Load` replaces the list and
leaves the page alone, so a page can fall outside the new range.

One behaviour of the code is modelled as written, because it is real. With
an empty list, `totalPages` is 0 while `page` is 1. `page === totalPages` is
false, so Next stays enabled, and a click sets the page to `min(2, 0) = 0`.
This can happen while the list is still loading. Page 0 shows nothing. Back
(enabled, because 0 is not 1) leads to page 1. Once items are loaded, Next
also leads from page 0 to page 1. The lemmas `EmptyListNextEscapes` and
`ZeroPageAfterLoad`, and the method `EmptyNextThenBack`, state this. This is
why the navigation invariant is stated only for pages in `[1, totalPages]`.

## Model

| member | source | states |
|---|---|---|
| `Pagination.TotalPages` | vite-project/src/App.tsx:19 | the page count is the least `k` with `3k >= n` (the ceiling of `n / 3`); it is 0 exactly when no items are loaded |
| `Pagination.SliceBound` | vite-project/src/App.tsx:41-44 | a slice bound becomes a position in `[0, len]`: a negative bound counts back from the end and stops at 0, and a non-negative bound stops at `len` |
| `Pagination.Slice` | vite-project/src/App.tsx:41-44 | the slice is the contiguous run of the list from the normalised start bound to the normalised end bound, and empty when the end bound is not past the start bound |
| `Pagination.PageItems` | vite-project/src/App.tsx:41-44 | for any page, the shown items are at most 3 consecutive items of the list, in order, starting at the normalised start bound; page 0 shows none |
| `Pagination.PageIsWindow` | vite-project/src/App.tsx:41-44 | for `page >= 1` the shown items are exactly `posts[(page-1)*3 .. min(page*3, n))`, in order, and there are at most 3 of them |
| `Pagination.PageInRangeIsNonEmpty` | vite-project/src/App.tsx:41-44 | every page in `[1, totalPages]` shows at least one item; pages before the last show exactly 3; the last shows what is left over |
| `Pagination.PageOutOfRangeIsEmpty` | vite-project/src/App.tsx:41-44 | page 0 and every page past `totalPages` show nothing |
| `Pagination.ItemShownOnItsPage` | vite-project/src/App.tsx:41-44 | item `i` is shown on page `i/3 + 1`, at position `i % 3`, and that page is in `[1, totalPages]` |
| `Pagination.PagesUpToIsPrefix` | vite-project/src/App.tsx:41-44 | pages 1..k, concatenated in order, are the first `min(3k, n)` items of the list |
| `Pagination.PagesTileList` | vite-project/src/App.tsx:41-44 | pages 1..totalPages, concatenated in order, give back exactly the loaded list |
| `Pagination.BackDisabled` | vite-project/src/App.tsx:59 | Back is disabled exactly on the page where a click would not move the page |
| `Pagination.NextDisabled` | vite-project/src/App.tsx:66 | Next is disabled exactly on the page where a click would not move the page |
| `Pagination.BackTarget` | vite-project/src/App.tsx:58 | Back never leads below page 1 or past the page it starts from; it steps back by one from a page above 1 and stays on page 1 |
| `Pagination.NextTarget` | vite-project/src/App.tsx:65 | Next never leads past `totalPages`; from a page in `[1, totalPages]` it stays in that range; it steps forward by one before the last page and is a no-op on it |
| `Pagination.EmptyListNextEscapes` | vite-project/src/App.tsx:65-66 | with an empty list there are 0 pages, Next is enabled on page 1 and leads to page 0; page 0 shows nothing, its Next is disabled, and Back from it leads to page 1 |
| `Pagination.ZeroPageAfterLoad` | vite-project/src/App.tsx:58-66 | once items are loaded, page 0 still shows nothing, and both Back and Next are enabled there and lead to page 1 |
| `Pagination.PageNumbers` | vite-project/src/App.tsx:88 | the page buttons are numbered `1, 2, ..., totalPages`: `totalPages` of them, strictly increasing, and a number has a button exactly when it lies in `[1, totalPages]` |
| `Pagination.CurrentButton` | vite-project/src/App.tsx:92-96 | the button drawn as current is the one at position `page - 1` when the page is in `[1, totalPages]`; otherwise no button is drawn as current |
| `Pager.PagerState.Total` | vite-project/src/App.tsx:19 | the page count of the loaded list is just enough pages of 3 to hold every item, and 0 exactly when nothing is loaded |
| `Pager.PagerState.Shown` | vite-project/src/App.tsx:41-44 | the grid never shows more than 3 items, shows at least one on a page in `[1, totalPages]`, and shows none on page 0 |
| `Pager.PagerState.constructor` | vite-project/src/App.tsx:14-17 | the first render has no items and page 1, so there are 0 pages and the page is not in range |
| `Pager.PagerState.Load` | vite-project/src/App.tsx:29-30 | the fetched list replaces the loaded items; the page is not touched |
| `Pager.PagerState.Back` | vite-project/src/App.tsx:56-62 | a Back click sets the page to `max(page-1, 1)`; the page is then at least 1 and unchanged from page 1; the list is unchanged; a page in `[1, totalPages]` stays in range |
| `Pager.PagerState.Next` | vite-project/src/App.tsx:63-69 | a Next click sets the page to `min(page+1, totalPages)`; it is a no-op on the last page; the list is unchanged; a page in `[1, totalPages]` stays in range |
| `Pager.PagerState.GoTo` | vite-project/src/App.tsx:88-97 | a click on the button numbered `n` (one of `1..totalPages`) makes `n` the page, which is then in range; the list is unchanged |
| `Pager.EmptyNextThenBack` | vite-project/src/App.tsx:58-66 | a Next click on the first render, before any items arrive, leaves the page at 0; a Back click then brings it to 1 |

## Left out

- The network request (`fetch`, the `response.ok` check and `response.json()`, vite-project/src/App.tsx:25-29). This is I/O against an external API. `Load` takes the fetched list as an arbitrary input.
- The `isLoading` and `error` flags and the `"Unknown error"` fallback (vite-project/src/App.tsx:15-16, 23, 31-35). They bracket the I/O and do not affect pagination. An error, once set, is never cleared.
- React's `useState`/`useEffect` semantics and re-render timing. The model treats each click as one atomic update of `page` against the current `posts`.
- All JSX markup and styling, except the choice of which page button is drawn as current.
- The fields of a product (`id`, `title`, `description`, `price`, `image`). They play no part in pagination, so a product is an opaque type `T`.
- `Pager.PagerState.Valid`: the class invariant is only `page >= 0`. `page <= max(totalPages, 1)` also holds in the component, because the list is loaded once into an initially empty list. `Load` accepts any list at any time, so the model does not carry that bound.
