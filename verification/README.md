# Amana Bookstore API — read queries

A Dafny model of the read-only routes of the Amana Bookstore Express API
(`server.js`). The server holds the catalogue (`books`) and the reviews
(`reviews`) in memory, in the order they are stored in the JSON files, and
answers each GET route with a `find`, `filter`, `map`, `sort` and `slice`
over them. Each route handler becomes a pure Dafny function over
`seq<Book>` / `seq<Review>` that answers `Ok(body)` (HTTP 200) or
`Err(ApiError(status, message))` (HTTP 404 "Book not found", HTTP 400
"Please provide both start and end dates").

Files:

- `wrappers.dfy` — `Option` and `Result`.
- `catalogue.dfy` — `Book`, `Review`, `ScoredBook`, `BookReviews`, `ApiError` and the two error answers.
- `filtering.dfy` — `Array.prototype.filter` and its meaning: a subsequence of the input holding exactly the elements that pass the test, each as often as the input does; the lemma `SelectionIsFilter` shows that this meaning determines the result uniquely.
- `ranking.dfy` — the descending sort by score, stable on exact scores as JavaScript's `sort` is, and the "cut after n" lemma.
- `server.dfy` — the route handlers: lookup by id, date-range search, top rated, featured list, reviews for a book.

Modelling choices:

- Dates are time values: `Book.datePublished` and each query bound carry the
  integer that `new Date(...)` yields, or `None` for an Invalid Date. A
  comparison with an Invalid Date is false in JavaScript, so such a book is never
  in a date-range answer and an unparseable bound yields an empty answer.
- The `!start || !end` test is modelled on the raw parameter text: a missing
  parameter and an empty one both give 400.
- `rating` is held in tenths of a star, so `score = rating * reviewCount`
  (in tenths) is exact and orders books as the exact decimal product does
  (see "## Left out" for where double arithmetic orders them differently).
- The routes in `server.js` are `/books/top/rated` and `/books/featured/list`
  and no route shadows another (`:id` matches a single path segment, so
  `/books/:id` never receives `/books/:id/reviews` or the three-segment
  routes). The model follows the code; routing itself is not modelled.
  The usage comment at server.js:30 names `/books/date-range?start=…`, but
  that two-segment path reaches the `/books/:id` handler (server.js:21-24)
  with id `date-range` and, unless a book has that id, answers 404 "Book not
  found"; the date-range search is reached only at
  `/books/date-range/search`.

## Model

| member | source | states |
|---|---|---|
| `Filtering.Filter` | server.js:41-44 | every element of a filter's answer passes the test, and the answer is no longer than the input |
| `Filtering.FilterSelectsExactly` | server.js:41-80 | for each of the filters at lines 41-44, 65 and 80: a filter's answer is a subsequence of the input (storage order kept) holding each passing element exactly as often as the input and no failing element; an element is in the answer iff it is in the input and passes |
| `Filtering.SelectionIsFilter` | server.js:41-80 | for each of the filters at lines 41-44, 65 and 80: any subsequence of the input that holds exactly the passing elements with their multiplicities equals the filter's answer, so the filter contracts below pin the answers down completely |
| `Ranking.Insert` | server.js:57 | inserting into a descending sequence keeps it descending and adds exactly the one element |
| `Ranking.SortByScore` | server.js:56-57 | the sorted scored books are in non-increasing score order and are a permutation of the input |
| `Filtering.FilterConcat` | server.js:58 | filtering a sequence cut in two parts gives the filtered parts, one after the other; it serves the proof that the cut at ten keeps the earliest-stored books among ties |
| `Ranking.InsertTies` | server.js:57 | inserting an entry puts it before every entry of equal score and leaves the order of the other entries of that score unchanged |
| `Ranking.SortKeepsTiesInOrder` | server.js:57 | the sort is stable: for every score, the entries with that score appear in the sorted result in their input order |
| `Ranking.PrefixKeepsBest` | server.js:58 | the first n of a descending sequence are a sub-multiset of it, and no element cut off scores more than an element kept |
| `Server.FindIndex` | server.js:22 | the lookup finds a position exactly when some book has the id, and it is the first such position in storage order |
| `Server.GetBook` | server.js:21-27 | 404 "Book not found" exactly when no book has the id; otherwise the answer has the requested id and is the first book with it |
| `Server.DateRangeSearch` | server.js:31-47 | 400 exactly when `start` or `end` is missing or empty; otherwise every returned book has start <= datePublished <= end (both inclusive, valid dates) and the answer is exactly those books in storage order |
| `Server.DateRangeEmptyWhenNoneWithin` | server.js:41-46 | when no book is published within the bounds the search answers an empty list |
| `Server.TopRated` | server.js:50-61 | the answer has min(10, number of books) entries in non-increasing score order |
| `Server.TopRatedKeepsBest` | server.js:51-58 | each answer entry is a catalogue book with score rating * reviewCount; the answer is a sub-multiset of all scored books, and every scored book left out scores no more than every book kept |
| `Server.TopRatedTiesInStorageOrder` | server.js:56-58 | for every score, the answer's entries with that score are a prefix of the catalogue's entries with that score in storage order, so a tie at the cut keeps the earliest-stored books |
| `Server.FeaturedList` | server.js:64-67 | the answer is exactly the books whose `featured` is true, in storage order |
| `Server.ReviewsForBook` | server.js:70-88 | 404 exactly when no book has the id; otherwise bookId is the requested id, bookTitle is the title of the first book with it, totalReviews equals the number of reviews returned, and the reviews are exactly those with that bookId, in storage order |

## Left out

- Express setup, middleware, routing and `app.listen` (server.js:1-13, 91-93): HTTP framework plumbing; each handler is modelled as a function of its inputs.
- Loading `books.json` and `reviews.json` (server.js:9-10): file I/O; the collections are inputs to every function.
- GET /books (server.js:16-18) answers the catalogue as stored; the catalogue input of the model is that answer, so it has no member of its own.
- JavaScript date parsing (`new Date(...)`, server.js:38-39, 42): a native library; dates enter the model already parsed, `None` standing for an Invalid Date.
- Floating-point arithmetic of `rating * reviewCount` (server.js:53): ratings are integer tenths; a missing rating or review count (NaN score) is not modelled. Hence `Ranking.InsertTies`, `Ranking.SortKeepsTiesInOrder` and `Server.TopRatedTiesInStorageOrder` describe ties of exact decimal scores only: where equal decimal products differ as doubles, JavaScript orders those books by the double value, not by storage order. For example, 3.3 stars with 3 reviews gives 9.899999999999999 and 1.1 stars with 9 reviews gives 9.9, so the second book sorts first although both score 99 tenths in the model; when such books sit 10th and 11th, the two top tens differ.
- Query parameters given more than once (an array value for `start` or `end`) and URL decoding of `:id`: Express request parsing, outside the handlers.
- Adding books or reviews, token authentication and recomputing a book's rating and review count: `server.js` contains no such routes.
