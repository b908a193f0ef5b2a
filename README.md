# Bookmall storefront: a Dafny model of its catalog, pagination and carousel logic

The storefront is a static web page over a fixed list of book records. Its
script (`script.js`) holds three pieces of logic, and this project models and
proves each of them:

- **Catalog queries.** The category bar filters the catalog by category, and
  'All Books' stands for everything. The search box trims and lower-cases its
  query. It then keeps the books whose lower-cased title, lower-cased author or
  decimal id contains the query, and writes a result message. Each query fills
  two regions: 'featured-books' gets every match and 'bestseller-books' gets
  the first 20.
- **Pagination.** The catalog is shown 30 books per page. Below it is a row of
  page buttons: a window of at most 4 consecutive pages around the current
  page, a first-page and a last-page button when those fall outside the window,
  and an ellipsis wherever pages are skipped. A page-level `currentPage`
  changes on page-button, Previous and Next clicks.
- **Carousel.** The featured books become slides, with a clone at each end of
  the buffer. A timer moves one slide per tick. After the animation reaches the
  clone at the end, the carousel jumps back to the first real slide without
  animation.

Modules, by file:

| file | module | contents |
|---|---|---|
| `text.dfy` | `Text` | `trim`, `toLowerCase`, `includes` and `toString` of an id, on strings |
| `arrays.dfy` | `ArrayOps` | `Array.prototype.filter` and `slice` on sequences, with the proof that `filter` selects exactly the matching positions in order |
| `catalog.dfy` | `Catalog` | the book record, `filterBooksByCategory`, the search and its message |
| `pagination.dfy` | `Pagination` | page count, page slice, button window and button row |
| `storefront.dfy` | `Storefront` | class `Storefront`: the page regions, `currentPage` and the event handlers |
| `carousel.dfy` | `Carousel` | class `Carousel`: the slide buffer and the tick state machine |

The category filter, the search and the pagination are three independent
paths. Each one reads the whole catalog and overwrites 'featured-books', and
none of them combines with another path's selection:

- Category and search are not composed. Clearing the search after choosing a
  category shows the whole catalog, not that category
  (`Storefront.CategoryThenEmptySearch`; the empty-query branch at
  script.js:186-189 displays `books`).
- Pagination ignores the search. Next after a search shows page 2 of the whole
  catalog, not of the matches (`Storefront.SearchThenNext`).

Both clones in the carousel's buffer are copies of the first featured slide.
`lastElementChild` is read after the first slide's clone has been appended
(script.js:399-404), so the clone prepended at slot 0 is that same copy. The
`Carousel.Carousel` constructor states the buffer this way. The index never
reaches slot 0 (`Valid` keeps it at 1 or above, and `Tick` never animates to
slot 0), so that slot is never on screen.

The catalog is the `catalog` constant of a `Storefront`. The page fetches it
again for every action, but it is the same immutable dataset each time.

## Model

| member | source | states |
|---|---|---|
| `Text.Trim` | script.js:161 | `trim()` leaves no whitespace at either end, never lengthens the string, and leaves nothing exactly when the string is all whitespace |
| `Text.Lower` | script.js:161 | `toLowerCase()` keeps the length, maps every capital to its own small letter and leaves every other character as it is |
| `Text.Contains` | script.js:166-168 | `s.includes(q)` holds exactly when `q` occurs at some position of `s`; the empty query occurs everywhere |
| `Text.Decimal` | script.js:168 | `id.toString()` is a non-empty digit string with no leading zero (except for `"0"`) |
| `Text.DecimalRoundTrip` | script.js:168 | reading back the digits of `id.toString()` gives `id` |
| `Text.TrimSpec` | script.js:161 | `trim()` keeps the middle of the string: everything cut from either end is whitespace, and the result neither starts nor ends with whitespace |
| `Text.TrimLowerCommute` | script.js:161 | trimming and lower-casing commute |
| `ArrayOps.Filter` | script.js:144 | `filter` keeps only matching elements, keeps every matching element, and never grows the list |
| `ArrayOps.FilterSelects` | script.js:144 | `filter` picks exactly the positions whose element matches, in strictly increasing order (catalog order is kept) |
| `ArrayOps.Slice` | script.js:226 | `slice(start, end)` with `0 <= start <= end` is the clamped sub-range, and empty once `start` is at or past the end |
| `Catalog.Bestsellers` | script.js:147-148 | `slice(0, 20)` is the first `min(20, len)` books |
| `Catalog.InCategory` | script.js:144 | the filter callback `book.categories.includes(category)`: whether the book's category list holds the selected category |
| `Catalog.FilterBooksByCategory` | script.js:141-152 | 'All Books' shows the whole catalog; any other category shows exactly the books tagged with it; the bestsellers are the first 20 of what is shown |
| `Catalog.CategoryKeepsOrder` | script.js:144 | a category view is the subsequence of the catalog at exactly the positions of the tagged books |
| `Catalog.NormalizeQuery` | script.js:161 | the normalised query has no capitals and no whitespace at either end, and is empty exactly when the box holds only whitespace |
| `Catalog.Matches` | script.js:165-169 | a book matches when the query occurs in its lower-cased title, its lower-cased author or its decimal id; each test is `Text.Contains`, so an occurrence at some position |
| `Catalog.MatchesQuery` | script.js:165-169 | the search's filter callback, `Catalog.Matches` for the normalised query |
| `Catalog.FoundMessage` | script.js:184 | the "Found N" text is never the no-results text, so the two outcomes of a non-empty search are told apart |
| `Catalog.PerformSearch` | script.js:160-190 | an empty trimmed query shows the catalog and clears the message; otherwise exactly the matching books are shown, the bestsellers are their first 20, the message is the no-results text exactly when nothing matched, and otherwise it is the "Found N" text with N the number of matches |
| `Catalog.SearchKeepsOrder` | script.js:165-169 | a non-empty search shows the subsequence of the catalog at exactly the matching positions |
| `Catalog.SearchIgnoresCase` | script.js:161 | two queries that are equal after lower-casing give the same result, bestsellers and message |
| `Catalog.SearchTolkienEitherCase` | script.js:161 | "TOLKIEN" and "tolkien" give the same search |
| `Catalog.FoundMessageCount` | script.js:184 | the "Found N" message determines N |
| `Catalog.SearchFindsIdDigits` | script.js:168 | in any catalog, the query "3" finds every book with id 3 or 13, whatever its title and author |
| `Catalog.SearchByIdDigits` | script.js:168 | in the catalog of just those two books, the query "3" shows both, in order, with the message "Found 2 book(s) matching your search." |
| `Pagination.TotalPages` | script.js:222 | the page count is the fewest pages of 30 that hold every book; no page is empty |
| `Pagination.PageSlice` | script.js:224-226 | page `p >= 1` holds `min(30, max(0, len - (p-1)*30))` books, the ones from position `(p-1)*30` on |
| `Pagination.PagePastLastPage` | script.js:222-226 | a page past the last one shows nothing |
| `Pagination.PageOfIndex` | script.js:222-226 | the book at position `i` is on page `i/30 + 1`, which exists, at offset `i mod 30` |
| `Pagination.FortyFiveBooks` | script.js:222-226 | 45 books make 2 pages; page 3 is empty |
| `Pagination.PageWindow` | script.js:237-243 | after the adjustment step, for `1 <= currentPage <= totalPages`: `1 <= startPage <= currentPage <= endPage <= totalPages`, the window has exactly `min(4, totalPages)` pages, and it starts at `max(1, min(currentPage - 2, totalPages - 3))`, so the current page sits third where there is room; the window never has more than 4 pages |
| `Pagination.Layout` | script.js:250-278 | the row is empty when there are no pages and never holds more than 8 entries; its entries are stated one by one by `Pagination.LayoutAt` |
| `Pagination.LayoutAt` | script.js:250-278 | position by position: optional page-1 button, optional leading ellipsis, the window's buttons, optional trailing ellipsis, optional last-page button |
| `Pagination.LayoutMarksCurrent` | script.js:261-267 | the current page's button is present and is the only one marked active; every button is for a page in `[1, totalPages]` |
| `Pagination.LayoutEnds` | script.js:250-278 | the row always starts with the page-1 button and ends with the last-page button |
| `Pagination.LayoutOrdered` | script.js:250-278 | button pages strictly increase; neighbouring buttons are for consecutive pages; an ellipsis stands between two buttons exactly where at least one page is skipped |
| `Pagination.LayoutShownPages` | script.js:250-278 | the buttons shown are exactly page 1, the last page and the window's pages |
| `Storefront.Storefront.constructor` | script.js:216 | `currentPage` starts at 1, every region starts empty |
| `Storefront.Storefront.ShowAllBooks` | script.js:10-13 | the first load handler shows the whole catalog and its first 20 books |
| `Storefront.Storefront.SelectCategory` | script.js:112-122 | a category click overwrites both listing regions with the category view and changes nothing else |
| `Storefront.Storefront.Search` | script.js:160-190 | a search overwrites both listing regions and the message with the search result and changes nothing else |
| `Storefront.Storefront.VisibleRange` | script.js:237-243 | the reassigned `startPage`/`endPage` equal the window |
| `Storefront.Storefront.UpdatePaginationButtons` | script.js:232-283 | 'page-numbers' becomes the layout for `currentPage`; Previous is disabled exactly on page 1 and Next exactly on the last page |
| `Storefront.Storefront.WindowButtons` | script.js:261-267 | the loop appends exactly the buttons `startPage..endPage`, with only `currentPage` marked active |
| `Storefront.Storefront.DisplayBooksWithPagination` | script.js:220-230 | shows page `currentPage` of the whole catalog, redraws the controls, and keeps `currentPage` and every button within the real pages |
| `Storefront.Storefront.GoTo` | script.js:285-291 | clicking the button for page `k` sets `currentPage` to `k` and redraws; the invariant is kept |
| `Storefront.Storefront.Prev` | script.js:296-301 | Previous goes back one page and redraws when not on page 1, and changes nothing on page 1 |
| `Storefront.Storefront.Next` | script.js:303-311 | Next goes on one page and redraws when before the last page, and changes nothing otherwise |
| `Storefront.CategoryThenEmptySearch` | script.js:186-188 | clearing the search after a category click shows the whole catalog |
| `Storefront.SearchThenNext` | script.js:221-226 | Next after a search shows page 2 of the whole catalog |
| `Storefront.FortyFiveBooksAtTheEnd` | script.js:303-311 | with 45 books, two Next clicks stop on page 2 with Next disabled, showing books 31 to 45 |
| `Carousel.IsFeatured` | script.js:382 | the slider's filter callback `book => book.featured`: whether the book is flagged as featured |
| `Carousel.SlideOf` | script.js:390-394 | a book's slide: its cover as the image source, its title as the alt text and its id as `data-book-id` |
| `Carousel.NextIndex` | script.js:431-444 | on a buffer of `n` real slides plus two clones, a tick moves real slide `i` to `i + 1`, and the last real slide back to the first |
| `Carousel.FirstRound` | script.js:425-446 | from the first real slide, tick `k < n` shows slide `1 + k`, and tick `n` is back on slide 1 |
| `Carousel.TicksCycle` | script.js:425-446 | `rounds * n + r` ticks (`r < n`) show real slide `1 + r` |
| `Carousel.BackToFirstSlide` | script.js:425-446 | after every whole number of rounds of `n` ticks the carousel is on the first real slide |
| `Carousel.Carousel.constructor` | script.js:380-428 | the buffer is the featured books' slides in order, with a copy of the first featured slide at both ends; the index starts at 1 and the offset at one slide width; without featured books the slider stays empty and no timer starts |
| `Carousel.Carousel.AppendSlides` | script.js:389-396 | one slide per featured book, in order |
| `Carousel.Carousel.Tick` | script.js:430-446 | a tick animates to the next slot; when that slot is the clone at the end, it jumps without animation to slide 1, which looks the same; the index stays on a real slide, and the transition is off exactly after that jump |

## Left out

- Fetching and decoding the dataset (`fetchBooks`, script.js:2-6 and again at 373-377) is network and JSON I/O. The catalog is a parameter instead, and fetch or parse failures are not modelled.
- Building DOM nodes (`displayBooks`, `createBookCard`, the `innerHTML` writes, CSS classes) is not modelled. Each region is a field set to a sequence of books, slides or page items.
- The category-bar duplication at script.js:126-138 only changes how the bar looks.
- Sharing, the clipboard and the cover download (script.js:66-105) are browser APIs and blobs. A card's Download and Read online buttons open the download or reading page in a new tab (`window.open`, script.js:46, 48). A slide click changes the location to the download page (`redirectToDownloadPage`, script.js:411 and 449-452). `redirectToReadingPage` (script.js:61-63) is never called. None of these is modelled.
- The contact form's mailto link (script.js:319-337) depends on `encodeURIComponent` and navigation. The theme toggle with `localStorage` and the menu toggle (script.js:204-212, 339-368) are UI and persistence wiring.
- Real time is not modelled. The 2000 ms interval, the 500 ms timeout and the CSS transition are one discrete `Tick`. `offsetWidth` is the integer parameter `width`.
- Two load handlers write 'featured-books' (script.js:9-17 and 314-316), and overlapping fetches after fast clicks can finish in any order. That is concurrency. `ShowAllBooks` and `DisplayBooksWithPagination` are separate methods, and their order is left to the caller.
- A click on a disabled Previous or Next button never reaches its handler. `Prev` and `Next` model the handlers, whose own bounds checks make the same clicks no-ops.
- Book ids are non-negative integers (`nat`), written in plain decimal. A negative id would print with a minus sign, `toString` switches to exponent notation from 1e21, and ids above 2^53 lose precision as JavaScript numbers. None of these is modelled.
- Text.Trim: strips only the six ASCII whitespace characters. JavaScript's `trim` also strips Unicode spaces and line terminators.
- Text.Lower: maps only 'A' to 'Z'. JavaScript's `toLowerCase` follows the full Unicode case mapping.
- Storefront.Storefront.constructor: assumes the regions are empty and Previous and Next are enabled before any handler runs. The script sets only `currentPage`; the other initial values come from the page markup.
- Storefront.Storefront.UpdatePaginationButtons: collects the row in a local sequence and writes 'page-numbers' once. The script appends to the region one button at a time, and nothing reads those intermediate states.
- Carousel.Carousel.constructor: assumes the transition is off before the first tick. The script never sets it there; its initial value comes from the stylesheet.
- Carousel.Carousel.constructor: takes `totalSlides` as the length of the slide buffer and `slideWidth` as the width of its first slide. The script reads both through `document.querySelector('.slider')` and `document.querySelectorAll('.slide')` (script.js:421-424). So the model assumes these selectors find exactly the 'book-slider' element and its children.
- Carousel.Carousel.constructor: covers the single call made on page load. A second call would start a second interval timer, and that is not modelled.
