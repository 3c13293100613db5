# Gutendex book explorer: wishlist, genre and paging logic in Dafny

The Gutendex book explorer is a client-side app with three pages. A browse
page lists one page of catalog results. It can filter them by genre, and it
moves between result pages and searches. A detail page shows one book. A
wishlist page shows the saved books. All three pages share a wishlist: an
array of book ids kept in local storage. This project takes the list logic
out of the pages' event handlers. It models that logic as pure functions
over sequences and small records, and proves what the handlers promise.

Modules, one per concern:

- `Basics`: `Option` (a missing or null JSON field) and `Result` (one
  catalog lookup that either yields a record or fails).
- `Seqs`: the array operations the handlers use, each with its contract.
  `IndexOf` is `indexOf`. `Keep` is `filter`. `IsSubseq` is order-preserving
  deletion. `Distinct` is the insertion order of a JavaScript `Set`.
- `Text`: `Join`, which is `Array.prototype.join`.
- `Catalog`: the book record, limited to the fields the pages read.
- `WishlistStore`: the list updates. `Toggle` is the indexOf/push/splice
  handler, which the browse page and the detail page both contain.
  `RemoveAll` is the wishlist page's filter.
- `Browse`: the browse page (`scripts/app.js`). It covers card hearts, the
  heart click, the genre dropdown, the genre filter, and the
  prev/next/search page counter.
- `Details`: the detail page (`scripts/book-details.js`). It covers the
  derived texts, the download links, and the wishlist button and its
  label.
- `WishlistPage`: the wishlist page (`scripts/wishlist.js`). It covers the
  all-or-nothing fan-out of lookups, the empty notice, the card genre line
  and the remove button.

The network, the DOM and local storage are replaced by plain values. The
stored wishlist is a `seq<int>` argument and result. A catalog request is a
`lookup: int -> Result<Book>` parameter, or a `Request` value that a
navigation event returns. What a page shows is a datatype: `Card`,
`Choice`, `View`, `Screen`.

Facts about the code that shape the model:

- The wishlist is an array, not a set. Toggling uses `indexOf`/`splice`,
  which removes the first occurrence only. Removal uses `filter`, which
  removes every occurrence. The model keeps a sequence. Statements about
  membership assume a duplicate-free list. No handler creates a duplicate:
  see `TogglePreservesNoDup`, `ToggleAllNoDup` and
  `RemoveAllPreservesNoDup`.
- The page counter only stops at page 1. Next has no upper bound.
- Every fetch response is applied when it arrives. Nothing discards a
  response to an older request.
- `JSON.parse(localStorage.getItem('wishlist')) || []` falls back to an
  empty list only when the key is missing. Corrupt stored JSON throws.
- The toggle handlers return nothing. They write a glyph or a label.
- Prev and next read the search box's live text. The box can change
  before the 300 ms debounced search handler runs, so a prev or next
  click can fetch a new text without resetting the page.

## Model

| member | source | states |
|---|---|---|
| `Seqs.IndexOf` | scripts/app.js:66 | The result is -1 exactly when the id is absent. Otherwise it is a position holding the id, with no earlier occurrence. |
| `Seqs.Distinct` | scripts/app.js:79-82 | The genre Set's contents: no duplicates, and exactly the elements that were added. |
| `Text.Join` | scripts/book-details.js:47-50 | Length of `join`: the part lengths plus one separator between each pair of neighbours. With a non-empty separator the result is empty only for no parts or for one empty part. |
| `Text.JoinSnoc` | scripts/book-details.js:48 | Joining one more part appends the separator and that part. |
| `WishlistStore.Toggle` | scripts/app.js:64-75 | An absent id is appended at the end, with every earlier element left in place. A present id makes the list exactly one shorter. |
| `WishlistStore.ToggleCounts` | scripts/app.js:66-71 | An absent id occurs once afterwards. A present id loses exactly one occurrence. Every other id keeps its number of occurrences. |
| `WishlistStore.TogglePresentRemovesFirst` | scripts/app.js:66-71 | Toggling a present id equals the reference `RemoveFirst` (delete the first occurrence). The result is one shorter and keeps the remaining ids in order. |
| `WishlistStore.ToggleFlipsMembership` | scripts/app.js:64-73 | On a duplicate-free list, the toggled id is listed afterwards exactly when it was not listed before. Every other id keeps its membership. |
| `WishlistStore.TogglePreservesNoDup` | scripts/app.js:66-73 | A duplicate-free wishlist stays duplicate-free after a toggle. |
| `WishlistStore.ToggleWithDuplicateKeepsMember` | scripts/app.js:70-71 | On `[5, 5]`, splice removes only one 5, so toggling 5 leaves it listed. The membership flip needs a duplicate-free list. |
| `WishlistStore.ToggleTwiceRestores` | scripts/book-details.js:73-79 | Toggling an absent id twice gives back the original list exactly. |
| `WishlistStore.ToggleAllNoDup` | scripts/book-details.js:72-82 | Any series of clicks keeps a duplicate-free list duplicate-free. |
| `WishlistStore.ToggleParity` | scripts/app.js:64-75 | After any series of clicks, an id is listed exactly when it was listed at the start xor it was clicked an odd number of times. |
| `WishlistStore.RemoveAll` | scripts/wishlist.js:58 | The removed id no longer occurs. Every other id keeps its number of occurrences. |
| `WishlistStore.RemoveAllKeepsOrder` | scripts/wishlist.js:58 | The result is a subsequence of the list, so order is kept. Removal also splits over concatenation. |
| `WishlistStore.RemoveAllIdempotent` | scripts/wishlist.js:58 | Removing an absent id changes nothing. Removing twice equals removing once. |
| `WishlistStore.RemoveAllPreservesNoDup` | scripts/wishlist.js:58 | Removal keeps a duplicate-free wishlist duplicate-free. |
| `WishlistStore.ToggleAgreesWithRemove` | scripts/wishlist.js:56-61 | On a duplicate-free list holding the id, the wishlist page's removal equals the other pages' toggle. |
| `Browse.Heart` | scripts/app.js:56 | A card shows the filled heart exactly when its id is on the wishlist, and the empty heart otherwise. |
| `Browse.Grid` | scripts/app.js:36-57 | One card per loaded book, in order. A listed book's card shows the filled heart U+2764 U+FE0F, and an unlisted one the white heart U+1F90D. |
| `Browse.OnHeartClick` | scripts/app.js:64-73 | The new list is `Toggle`. On a duplicate-free list, the glyph written by the handler equals what a fresh render of the new list shows, and the list stays duplicate-free. |
| `Browse.AllShelves` | scripts/app.js:80-82 | A genre is collected exactly when some loaded book carries that bookshelf. |
| `Browse.GenreChoices` | scripts/app.js:83-89 | The dropdown is "All Genres" with an empty value, then one entry per distinct genre. Each such entry's value and text are the genre. |
| `Browse.GenreChoicesFirstSeen` | scripts/app.js:78-89 | The genres have no duplicates. They are exactly the bookshelves of the loaded books. They are ordered by first occurrence in book-then-shelf order. |
| `Browse.FilterByGenre` | scripts/app.js:122-135 | An empty selection shows all loaded books. Any other selection shows only loaded books carrying that shelf. |
| `Browse.FilterByGenreExact` | scripts/app.js:126 | A non-empty selection gives a subsequence of the loaded books. Each tagged book appears as often as loaded; untagged books never appear. |
| `Browse.OnGenreChange` | scripts/app.js:122-135 | The re-rendered grid is exactly the grid of the filtered books. For a non-empty genre that is every tagged book, in loaded order (see `FilterByGenreExact`); for "All Genres" it is the full grid. Its hearts reflect the wishlist. |
| `Browse.OnPrev` | scripts/app.js:137-143 | At page 1 nothing changes and nothing is fetched. Above 1 the page, the counter and the request all move to page - 1. The page never drops below 1. |
| `Browse.OnNext` | scripts/app.js:145-149 | The page goes up by exactly 1, with no upper bound. The counter and the request use the new page. |
| `Browse.OnTyped` | scripts/app.js:117-120 | A keystroke changes the box's text, which prev and next read at once. It changes neither the page nor the counter and fetches nothing until the debounced handler runs. |
| `Browse.OnSearchAsWritten` | scripts/app.js:117-120 | The search handler as written: page 1 of the box's current text is fetched, but the counter keeps its old value. |
| `Browse.SearchLeavesStaleCounter` | scripts/app.js:117-120 | After two next-clicks, typing "dogs" and the search handler running, page 1 of "dogs" is fetched while the counter still shows 3. |
| `Browse.OnSearch` | scripts/app.js:117-120 | Corrected search handler: the page and the counter both reset to 1, and page 1 of the box's text is fetched. |
| `Browse.Step` | scripts/app.js:117-149 | Event dispatch to prev and next as written, keystrokes, and the corrected search handler. Every request asks for the page the state then holds, with the box's text at that moment. Only a keystroke changes the text, and a keystroke fetches nothing. `StepKeepsConsistent` carries the invariant. |
| `Browse.StepKeepsConsistent` | scripts/app.js:137-149 | Prev and next as written, keystrokes, and the corrected search handler each keep the page at 1 or more and equal to the counter. Each request asks for the page then shown, with the box's current text. The search handler as written breaks this; see "## Findings". |
| `Browse.RunKeepsConsistent` | scripts/app.js:117-149 | Any series of prev and next clicks as written, keystrokes and corrected searches keeps the page at 1 or more and keeps the counter in step. The search handler as written does not; see "## Findings". |
| `Details.ToggleLabel` | scripts/book-details.js:67 | On first render the button reads "Remove from Wishlist" exactly when the book is listed, and "Add to Wishlist" otherwise. |
| `Details.OnToggleClick` | scripts/book-details.js:72-82 | The new list is `Toggle`. On a duplicate-free list, the label reads "Remove" exactly when the book is listed afterwards, and the list stays duplicate-free. |
| `Details.TwoClicksRestore` | scripts/book-details.js:73-79 | For any list without the book, two clicks restore both the list and the original label. |
| `Details.GenresText` | scripts/book-details.js:48 | "N/A" for no shelves or a single empty shelf name. Otherwise the shelves joined with ", ", which is non-empty. |
| `Details.CopyrightText` | scripts/book-details.js:51 | "Yes" exactly when the flag is true. "No" for false and for null. |
| `Details.DownloadLinks` | scripts/book-details.js:55-64 | One link per format entry. Which key and URL each link carries is stated by `LinksOnePerFormat` below. |
| `Details.LinksOnePerFormat` | scripts/book-details.js:55-64 | With distinct format keys there is one link per entry. Each link's text is its key, and its target is the URL the format object holds for that key. The link texts are exactly the object's keys. |
| `Details.Display` | scripts/book-details.js:42-69 | The initial button label is "❤️ Remove from Wishlist" for a listed book and "🤍 Add to Wishlist" for an unlisted one. The genres, copyright and links fields come from the derivations above. |
| `WishlistPage.Aggregate` | scripts/wishlist.js:12-18 | The join succeeds exactly when every lookup succeeds. It then yields one record per lookup, in order. Any failure gives a failure with no partial list. |
| `WishlistPage.FetchAll` | scripts/wishlist.js:12-18 | Success exactly when every wishlist id's lookup succeeds. It then yields one record per id, in wishlist order. |
| `WishlistPage.GenreLabel` | scripts/wishlist.js:49 | "Unknown" without a bookshelves field. Up to three shelves are joined in full. More than three give the first three joined, then "...". |
| `WishlistPage.GenreLabelTruncates` | scripts/wishlist.js:49 | With more than three shelves the line is exactly `s0, s1, s2...`. |
| `WishlistPage.Render` | scripts/wishlist.js:28-39 | "Your wishlist is empty." exactly when there are no records. Otherwise one card per record, in order, with that record's genre line and the same filled-heart remove glyph the browse page uses. |
| `WishlistPage.Load` | scripts/wishlist.js:8-26 | The page after loading: the banner carries the fixed failure message and the notice carries the empty message. `LoadOutcomes` states when each outcome occurs. |
| `WishlistPage.LoadOutcomes` | scripts/wishlist.js:8-26 | The empty notice appears exactly for an empty wishlist. The failure banner appears exactly when some lookup fails. Otherwise there is one card per id, holding that id's record, in wishlist order. |
| `WishlistPage.OnRemove` | scripts/wishlist.js:56-61 | The new list is `RemoveAll`: the id is gone, every other id keeps its count, order is kept, and a duplicate-free list stays duplicate-free. The page is reloaded from the new list. |

## Findings

| source | as written | input that shows it | evidently intended | confidence | as-written member | corrected member |
|---|---|---|---|---|---|---|
| scripts/app.js:117-120 | The search handler sets `currentPage = 1` and fetches page 1. It does not update the page counter element, unlike the prev and next handlers. | Click next twice (counter shows 3), then type a search. Page 1 is fetched, but the counter still reads 3. | The counter shows the page that was fetched, 1. | medium, not executed | `Browse.OnSearchAsWritten` (`Browse.SearchLeavesStaleCounter`) | `Browse.OnSearch` (`Browse.RunKeepsConsistent`) |

## Left out

- Network requests, HTTP status checks and URL building. A lookup is a `Result` value given as a parameter, and a page fetch is a `Request` value.
- DOM creation and mutation, `innerHTML` templates, the loading skeleton, and showing or hiding the error banner. Only what the handlers compute is modelled.
- The staggered card reveal (`setTimeout`) and the 300 ms debounce. These are timing only. `Typed` stands for a change of the box's text and `SearchFired` for the debounced handler running. Any order of the two is allowed, which includes every order the debounce produces.
- Local storage reads and writes, and JSON encoding. The stored wishlist is a plain `seq<int>`, and the saved search and genre restored on load are not modelled.
- Extracting the id from the URL, and `parseInt` on the button's `data-id`. Ids are plain integers.
- Stale fetch responses. The code applies whichever response arrives last, and the model has no fetch completion order.
- The cover image (`formats['image/jpeg']`), and the author list and ID line on cards, which are presentation only.
- Browse.Start: the page markup is not part of this model, so the counter element is assumed to start at "1".
- Catalog.Book: `bookshelves` is always an array, as the catalog sends it. On the browse page a missing field would throw. `WishlistPage.GenreLabel` takes the optional field to model the wishlist card's guard.
- WishlistPage.Aggregate: `Promise.all` rejects with whichever failure settles first. Only the fixed banner text is shown, so a failure carries no reason.
- Browse.OnNext: page numbers are unbounded integers. JavaScript numbers would lose precision only beyond 2^53 clicks.
