# Book catalog browser: browse state, filter and pagination

A Dafny model of the logic in `scripts.js` of a client-side book-catalog
browser. The `BookApp` object keeps a browse state: `matches`, the books the
last search returned, and `page`, the 1-based page number. Event handlers
recompute that state and write the result to the page. The model covers:

- the per-book filter `filterBooks`: a title substring test, an author test and
  a genre test, each switched off by `'any'` or a blank query;
- the search handler, which filters the whole catalog, resets `page` to 1,
  shows the first page, toggles the "no results" message and closes the search
  dialog;
- the "Show more" counter and disabled flag, and the "Show more" handler, which
  shows the next slice and increments `page`;
- the dropdown builder, which puts the sentinel `'any'` first and then one
  option per table entry;
- the lookup of a clicked book by id.

Modules, in dependency order:

- `Text` (`text.dfy`): ASCII versions of `trim`, `toLowerCase` and `includes`.
  Each has a contract of its own: blank exactly when trimmed to empty, and a
  substring exactly when it occurs at some index.
- `Subsequences` (`subsequence.dfy`): order-preserving subsequences, defined as
  an increasing index embedding.
- `Catalog` (`catalog.dfy`): the `Book` and `Filters` records, `FilterBooks`,
  `Filter` (the catalog's `books.filter(...)`), `FindBook` (`books.find(...)`)
  and their lemmas.
- `Paging` (`paging.dfy`): `Array.prototype.slice`, the displayed page, the
  remaining counter and the disabled flag.
- `App` (`book_app.dfy`): the class `BookApp`. Each DOM element a handler
  writes is a plain field: the list container's books, the message flag, the
  counter, the button's disabled flag, the search dialog's open flag and the
  two option lists.

The imported `books`, `authors`, `genres` and `BOOKS_PER_PAGE` are constructor
parameters, with `BOOKS_PER_PAGE > 0`. An author or genre table is given as its
`(id, name)` entries in entry order, which is the order `Object.entries` returns
them in.

`populateBookPreviews` clears the list container before it appends
(scripts.js:22). So "Show more" *replaces* the visible list with the next page;
it does not add the page to what is already shown. `listItems` is overwritten
on every render. The invariant `Rendered()` says that after each handler the
list is exactly the current page `matches[(page-1)*N .. page*N]`, clamped to
the length of `matches`. `PagesCoverPrefix` states what a user sees while
clicking through: pages 1 to k in turn are the first k*N matches, each shown
once, in order.

Two behaviours of the code are easy to misread, and the model keeps both:

- The title test lowercases the *untrimmed* query. `trim` only decides
  whether the query is blank (scripts.js:97). So a space followed by a
  book's whole title does not find that book (`Catalog.LeadingSpaceMisses`).
  It is not a plain "title contains the
  trimmed query, ignoring case" test.
- `handleShowMoreClick` has no guard on the remaining count
  (scripts.js:103-108). Only the disabled button stops the click. The model
  increments `page` unconditionally, and past the end it displays an empty
  slice.

## Model

| member | source | states |
|---|---|---|
| `Text.ToLower` | scripts.js:97 | the same length; each ASCII capital lowered, every other character kept |
| `Text.ToLowerIdempotent` | scripts.js:97 | lowering twice is lowering once |
| `Text.Trim` | scripts.js:97 | the result is the input with a blank prefix and a blank suffix cut off; the trimmed query is empty exactly when every character is white space; a non-empty result starts and ends with a non-space character |
| `Text.Includes` | scripts.js:97 | `s.includes(q)` holds exactly when `q` occurs in `s` at some index |
| `Catalog.FilterBooks` | scripts.js:95-101 | a book passes exactly when (the query is blank, or the lowered untrimmed query occurs in the lowered title) and (author is `any` or equals the book's author) and (genre is `any` or is one of the book's genres) |
| `Catalog.Filter` | scripts.js:81 | the search result is an order-preserving subsequence of the catalog |
| `Catalog.FilterCounts` | scripts.js:81 | the result holds each passing book exactly as often as the catalog does, and no failing book |
| `Catalog.FilterMembers` | scripts.js:81 | a book is in the result exactly when it is in the catalog and passes `filterBooks` |
| `Catalog.FilterUnique` | scripts.js:81 | any order-preserving subsequence of the catalog with those counts is the filter result: the result is exactly the passing books, in catalog order |
| `Catalog.FilterKeepsAll` | scripts.js:81 | when every book passes, the result is the catalog itself |
| `Catalog.FilterIdempotent` | scripts.js:81 | filtering the result again with the same filters returns it unchanged |
| `Catalog.FilterAppend` | scripts.js:81 | filtering a concatenation is the concatenation of the filtered parts, so catalog order is kept |
| `Catalog.FilterShowsAll` | scripts.js:95-101 | with a blank title, author `any` and genre `any`, the result is the whole catalog in catalog order |
| `Catalog.TitleQueryFindsBook` | scripts.js:97 | searching for a catalog book's exact title, with author and genre `any`, returns that book |
| `Catalog.TitleTestIgnoresCase` | scripts.js:97 | lowercasing the title or the query does not change whether a book passes |
| `Catalog.LeadingSpaceMisses` | scripts.js:97 | for every book with a non-blank title, the query made of a space and then the whole title does not pass, with author and genre `any`: the query is not trimmed before the substring test |
| `Catalog.CaseOnlyMatches` | scripts.js:97 | for every book, a query that equals its title up to case passes, with author and genre `any` |
| `Catalog.FindBook` | scripts.js:116 | returns the book at the first index whose id matches, and returns none exactly when no book has that id |
| `Paging.Slice` | scripts.js:104 | `slice(start, end)` has length `min(end, len) - start` when that is positive and 0 otherwise, and element `i` is element `start + i` of the input |
| `Paging.PageOf` | scripts.js:103-108 | a displayed page holds at most `BOOKS_PER_PAGE` books, and exactly that many when the page ends within the matches |
| `Paging.PageAfter` | scripts.js:104-106 | page `p + 1` is `matches.slice(p*N, (p+1)*N)`, the slice "Show more" shows from page `p` |
| `Paging.Remaining` | scripts.js:69-72 | the counter, `max(0, matches.length - page*N)`, is the number of matches after the first `page` pages |
| `Paging.ShowMoreDisabled` | scripts.js:69-73 | the button is disabled exactly when the counter is 0, which is exactly when the next page would be empty |
| `Paging.PagesCoverPrefix` | scripts.js:103-108 | pages 1 to k shown one after the other are the first `min(len, k*N)` matches, each once, in order |
| `Paging.ShownPlusRemaining` | scripts.js:67-74 | the books on pages 1 to k plus the counter after page k add up to the number of matches |
| `Paging.FiveMatchesTwoPerPage` | scripts.js:103-108 | five matches, two per page: slices [0,2), [2,4), [4,5) with counters 3, 1, 0, and the button is disabled only on page 3 |
| `App.BookApp.constructor` | scripts.js:3-5 | the initial state is page 1 with every catalog book matching |
| `App.BookApp.Init` | scripts.js:8-14 | shows `matches.slice(0, N)`, appends both dropdowns' options and sets the button; at page 1 the display agrees with the browse state |
| `App.BookApp.PopulateBookPreviews` | scripts.js:18-24 | the list container afterwards holds exactly the given books: the old previews are cleared, not kept |
| `App.BookApp.PopulateDropdowns` | scripts.js:27-36 | keeps the existing options and appends the genre list (first text "All Genres") and the author list (first text "All Authors") |
| `App.BookApp.PopulateDropdown` | scripts.js:39-54 | the option list is `any` with the given text first, then one option per table entry in entry order; its length is the number of entries plus one |
| `App.BookApp.UpdateShowMoreButton` | scripts.js:67-74 | the counter is `max(0, matches.length - page*N)` and the button is disabled exactly when `matches.length <= page*N` |
| `App.BookApp.HandleSearchSubmit` | scripts.js:77-91 | `matches` becomes the filter result and `page` becomes 1; with everything `any` the matches are the whole catalog; the message shows exactly when nothing matched; the list shows `result.slice(0, N)`; the search dialog is closed; the display agrees with the new state |
| `App.BookApp.HandleShowMoreClick` | scripts.js:103-108 | with the old page `p`, the list is replaced by `matches.slice(p*N, (p+1)*N)` and `page` becomes `p + 1`; `matches` is unchanged; the display agrees with the new state |
| `App.BookApp.HandleBookPreviewClick` | scripts.js:111-121 | given the clicked preview's id, it selects the first catalog book with that id, and selects a book exactly when a preview was hit, its id is non-empty (an empty `data-preview` is falsy) and some book has that id |

## Left out

- DOM work (`document.querySelector`, fragments, `innerHTML` templates,
  `classList`, the dialog's `open` property): replaced by plain fields. The
  HTML text of a preview, of an option and of the button is not modelled.
  Neither is the page's initial markup: the constructor starts with an empty
  list, empty option lists and cleared flags.
- `FormData` / `Object.fromEntries` parsing of the search form
  (scripts.js:79-80): `HandleSearchSubmit` takes the `Filters` record directly.
  `event.preventDefault()` and `window.scrollTo` (scripts.js:78, 89) have no
  effect on the modelled state.
- `event.composedPath()` traversal in `handleBookPreviewClick` (scripts.js:112-113):
  the method takes the clicked preview's id as an `Option`. An empty id is
  treated as a miss, as the truthiness test does; the model does not go on to
  look for a further ancestor with a non-empty id. `displayBookDetails`
  is not part of this model, so the method returns the book it would receive.
- `setTheme` (scripts.js:57-64): it depends on `window.matchMedia` and only sets
  two CSS colour variables.
- `setupEventListeners`, `createBookPreviewElement`, `displayBookDetails` and
  the contents of `data.js` are not part of this model.
- The dropdowns' option order: `Object.entries` puts integer-like keys first,
  in ascending order. The model takes the table as its entry sequence and
  assumes keys that are not integer-like.
- Text.ToLower: lowers ASCII capitals only; Unicode case mapping of `toLowerCase` is not modelled.
- Text.Trim: strips ASCII white space (space and code points 9 to 13) only; the other Unicode white space and line terminators `trim` removes are not modelled.
- Catalog.FilterBooks: its title test inherits the ASCII-only lowering and trimming above.
