# Book Finder: a Dafny model of the search store and the two book components

Book Finder is a browser client for the Open Library catalog. It searches by title, shows the
results as cards, pages through them with "load more", keeps a list of favourite keys in local
storage and opens a detail dialog for one book. This project models three parts of it:

- the state container `useBookStore`;
- the display logic of the result card (`BookCard`);
- the display logic and description fetch of the detail dialog (`BookModal`).

Modules, one per source file, plus two shared ones:

- `Text` (text.dfy): the JavaScript behaviour the components rely on. This is `String.prototype.trim`
  with the ECMAScript whitespace set, `Array.prototype.join`, and the decimal rendering of an
  integer in a template literal.
- `Books` (books.dfy): the `BookDoc` document and the derivations both components share. These are
  the cover URL and the "names or fallback" and "year or fallback" labels. The two components write
  these out separately; here each is defined once, and each component passes its own fallback text.
  The catalog page link and the detail request URL are built only by the dialog; they are kept in
  `Books` beside the cover URL.
- `BookStore` (book_store.dfy): class `Store`, one field per store field. It adds a ghost `stored`
  field for what local storage holds. `searchBooks` is split at its `await`. `BeginSearch` does the
  synchronous part and returns the request it would send, or `None`. `CompleteSearch` applies the
  settled outcome. `SearchBooks` and `LoadMore` run both halves as one transition. The favourites
  list operations are functions (`Without`, `Toggled`), with lemmas about them.
- `BookCard` (book_card.dfy): what a card shows, and how a click bubbles. A click on the favourite
  button runs its handler first. The handler stops propagation, so the card's own handler does not
  run.
- `BookModal` (book_modal.dfy): description normalisation over a small JSON datatype, the
  description text, what the dialog shows, and class `DetailPanel` for the dialog's
  `desc`/`loading` state.

External inputs are parameters. The search response (`SearchOutcome`), the detail response
(`DetailOutcome`) and whether the storage write succeeds are inputs. So is the list read from
storage at start-up.

Four behaviours of the code that the model follows, which a reader might not expect:

- The code keeps favourites as a list, not a set. A hydrated list can contain duplicates, and the
  toggle only keeps a duplicate-free list duplicate-free.
- The code does not check that a detail response still belongs to the current selection.
- After a successful reset search the cursor is 2, whatever came before. So "cursor = successful
  fetches + 1" holds only counted from the last reset.
- A search with a blank query clears the results but keeps the cursor.

## Model

| member | source | states |
|---|---|---|
| `Text.Trim` | store/useBookStore.ts:53 | `query.trim()`: no longer than the query, and neither starts nor ends with whitespace; `Text.TrimIsSlice` shows only surrounding whitespace is dropped |
| `Text.TrimIsSlice` | store/useBookStore.ts:53 | what `trim` keeps is one contiguous piece of the query, and everything it drops before and after that piece is whitespace |
| `Text.Join` | components/BookCard.tsx:46 | `Array.prototype.join`: the names in order with the separator between each pair; its properties are stated by `Text.JoinEmptyIff` and `Text.JoinContains` |
| `Text.JoinContains` | components/Bookmodal.tsx:88 | every element of the list occurs as a substring of the joined string |
| `Text.IntToString` | components/BookCard.tsx:21 | `${n}` for an integer: a non-empty decimal rendering, with a leading "-" for negatives; `Text.IntToStringInjective` shows it loses nothing |
| `Text.TrimEmptyIff` | store/useBookStore.ts:53 | `query.trim()` is empty exactly when every character is ECMAScript whitespace or a line terminator, including the empty query |
| `Text.JoinEmptyIff` | components/BookCard.tsx:46 | joining with a non-empty separator gives "" exactly for no names or a single empty name |
| `Text.IntToStringInjective` | components/BookCard.tsx:21 | distinct numbers render to distinct decimal strings, because the rendering parses back to the number |
| `Books.CoverUrl` | components/BookCard.tsx:20-22 | no cover exactly when `cover_i` is absent or 0; otherwise the covers host + the id in decimal + "-L.jpg" |
| `Books.CoverUrlInjective` | components/Bookmodal.tsx:36-38 | two cover ids that give the same cover URL are the same id |
| `Books.OpenUrl` | components/Bookmodal.tsx:39 | the catalog link is "https://openlibrary.org" followed by the key, unchanged |
| `Books.DetailUrl` | components/Bookmodal.tsx:22 | the detail request URL is the catalog link for the key followed by ".json" |
| `Books.DetailUrlInjective` | components/Bookmodal.tsx:22 | different keys give different detail request URLs |
| `Books.AuthorLabel` | components/BookCard.tsx:46 | the fallback when the names are absent, `[]` or `[""]`; otherwise the names joined with ", ", which is never empty |
| `Books.AuthorLabelShowsEveryName` | components/Bookmodal.tsx:88 | when the names are shown, every single author name occurs in the label |
| `Books.YearLabel` | components/BookCard.tsx:50 | the fallback when the year is absent or 0, else the year in decimal |
| `BookStore.IsBlank` | store/useBookStore.ts:53 | `!query.trim()` holds exactly when every character of the query is whitespace |
| `BookStore.EffectivePage` | store/useBookStore.ts:57 | `reset ? 1 : page`; `Store.BeginSearch` and `Store.SearchBooks` state the request page through it |
| `BookStore.TotalOrZero` | store/useBookStore.ts:69 | the response's `numFound`, or 0 when it is absent (the `or 0` fallback); `Store.CompleteSearch` states `numFound` through it |
| `BookStore.Hydrate` | store/useBookStore.ts:39-46 | the favourites read at start-up: the stored list, or `[]` when nothing can be read; `Store.constructor` states the initial favourites through it |
| `BookStore.ErrorText` | store/useBookStore.ts:74 | the failure's message when it is present and non-empty, else "Failed to fetch"; never empty |
| `BookStore.Without` | store/useBookStore.ts:84 | the filtered list has no occurrence of the key and keeps every other key of the list |
| `BookStore.Toggled` | store/useBookStore.ts:84 | the key is in the new list exactly when it was not in the old one, and every other key keeps its membership |
| `BookStore.WithoutMultiset` | store/useBookStore.ts:84 | filtering removes exactly the occurrences of the key: the multiset drops that key's count to 0 and keeps the others |
| `BookStore.ToggleAbsentAppends` | store/useBookStore.ts:84 | an absent key is appended once, at the end |
| `BookStore.TogglePresentRemoves` | store/useBookStore.ts:84 | a present key loses every occurrence, other keys keep their counts, and the list gets shorter |
| `BookStore.ToggleKeepsNoDuplicates` | store/useBookStore.ts:82-87 | a duplicate-free favourites list stays duplicate-free after a toggle |
| `BookStore.ToggleTwiceAbsent` | store/useBookStore.ts:84 | toggling an absent key twice restores the exact original list |
| `BookStore.ToggleTwicePresent` | store/useBookStore.ts:84 | toggling a present key twice keeps the same set of keys, with the key moved to the end; a duplicate-free list keeps the same multiset |
| `BookStore.Store.constructor` | store/useBookStore.ts:33-47 | initial state: empty query, page 1, no books, numFound 0, not loading, no error, no selection; favourites are the stored list, or `[]` when none can be read |
| `BookStore.Store.SetQuery` | store/useBookStore.ts:49 | only `query` changes, and it becomes the text as given, untrimmed |
| `BookStore.Store.SelectBook` | store/useBookStore.ts:90 | only `selected` changes, to the given book or to none |
| `BookStore.Store.BeginSearch` | store/useBookStore.ts:52-58 | blank query: books `[]`, numFound 0, no request; page, loading and error unchanged. Otherwise: a request for the query at page 1 (reset) or the cursor, loading true, error cleared, results untouched |
| `BookStore.Store.CompleteSearch` | store/useBookStore.ts:66-75 | success: books are the docs (reset) or old books followed by the docs, numFound is the response total or 0, page is the requested page + 1. Failure: only error and loading change. Loading ends false either way |
| `BookStore.Store.SearchBooks` | store/useBookStore.ts:51-76 | the whole `searchBooks(reset)` transition, in terms of the state before the call: the short-circuit, the request, append versus replace, the cursor, and the failure frame; page stays at least 1 |
| `BookStore.Store.LoadMore` | store/useBookStore.ts:78-80 | a search for the cursor page whose docs are appended to the books, with the cursor advanced by one on success |
| `BookStore.Store.ToggleFav` | store/useBookStore.ts:82-88 | favourites become the toggled list; storage holds the new list when the write succeeds and is untouched when it throws; every other field is unchanged |
| `BookStore.SearchThenLoadMore` | store/useBookStore.ts:51-80 | on a fresh store, a reset search then `loadMore` yields page-1 docs followed by page-2 docs, cursor 3, the second total, and requests for pages 1 and 2 |
| `BookStore.BlankThenFailingSearch` | store/useBookStore.ts:53-74 | a blank query yields no results and no request; a failing `loadMore` after a successful search keeps those results, sets the error and ends loading |
| `BookCard.StarGlyph` | components/BookCard.tsx:61 | the filled star exactly for a favourite, the empty star exactly otherwise |
| `BookCard.Render` | components/BookCard.tsx:20-51 | the card's cover, title, author label with fallback "Unknown" (never empty), year label with fallback "Year N/A", and star |
| `BookCard.Dispatch` | components/BookCard.tsx:30-56 | a click on the favourite button calls only `onToggleFav(book.key)`, because propagation is stopped; a click on the card calls only `onClick(book)`; only a card click selects |
| `BookModal.NormalizeDescription` | components/Bookmodal.tsx:23-24 | a string description is kept as it is (even ""); an object gives its `value` exactly when that is a non-empty string; absent and other values give none |
| `BookModal.DescriptionOf` | components/Bookmodal.tsx:21-26 | a failed detail request leaves no description; a fetched one leaves the normalised description |
| `BookModal.DescriptionText` | components/Bookmodal.tsx:98-104 | "Loading details..." while loading; otherwise a non-empty description; otherwise "No description available."; never empty |
| `BookModal.SettledDescriptionText` | components/Bookmodal.tsx:98-104 | after the request settles, the placeholder covers a failed request and an empty-string description alike |
| `BookModal.Render` | components/Bookmodal.tsx:34-39 | nothing exactly when no book is selected; otherwise the cover, author label "Unknown Author" fallback, "First published: " + year or "N/A", description text and catalog link |
| `BookModal.DetailPanel.constructor` | components/Bookmodal.tsx:12-13 | the dialog starts with no description and not loading |
| `BookModal.DetailPanel.BeginFetch` | components/Bookmodal.tsx:15-22 | no book: no request and no change; otherwise the detail URL of the book's key is requested, loading is true and the description is cleared |
| `BookModal.DetailPanel.SettleFetch` | components/Bookmodal.tsx:23-28 | the description becomes what the outcome gives, and loading is false whatever the outcome |
| `BookModal.DetailPanel.FetchDetails` | components/Bookmodal.tsx:15-31 | the whole effect for one selection: no request without a book; otherwise the request for the key, then the outcome's description with loading false |

## Left out

- The HTTP requests (`axios.get`) are not modelled. Their settled results are parameters.
- A response whose `docs` field is not an array is not modelled: `Success` always carries a list of documents. In the source, a reset search stores such a value as `books` and still advances the cursor and sets `numFound`. An appending search throws on the spread instead, and its error text is the TypeError's message, not "Failed to fetch".
- `URLSearchParams` encoding is not modelled. A search request is modelled as the pair (title, page) it encodes.
- Reading local storage and `JSON.parse` are not modelled. The list they produce is an input: `None` for a missing entry, an empty entry, one that does not parse, or a `getItem` that throws because storage is unavailable. A parsed value that is not an array of strings is not modelled.
- The storage write is the ghost field `stored`. Whether it throws is an input, since the exception is swallowed.
- Overlapping searches are not modelled: two `loadMore` calls in flight read the same cursor. Each call is one atomic sequential transition, because concurrency is outside this model.
- A detail response arriving after a newer selection is not modelled, for the same reason.
- BookModal.NormalizeDescription: maps an object whose `value` is a truthy non-string (a number, boolean, array or object) to no description. The source would store that non-string value and hand it to the renderer.
- JSON numbers (`cover_i`, `first_publish_year`, `numFound`) are modelled as unbounded integers rendered in decimal. Fractions, NaN and their rendering are floating-point behaviour. JavaScript writes numbers of magnitude 1e21 or more in exponent form (`${1e21}` is "1e+21"), and integers beyond 2^53 lose precision; neither is modelled.
- JavaScript strings are UTF-16. The model works on Unicode scalar values, and `trim` is modelled on code points.
- src/App.tsx is view wiring and is not part of this model. This covers the demo query on a timer, the form, the grid, the favourites count and the "load more" visibility test.
- React hooks, framer-motion animation, CSS classes (including the star's colour class) and the JSX layout are not modelled.
- The `subject` field is carried in `BookDoc` but nothing uses it.
