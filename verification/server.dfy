/**
 * The read-only route handlers of the bookstore API, each a pure query over
 * the catalogue `books` and the review list `reviews`, both in storage order.
 * A handler answers `Ok(body)` for a 200 response or `Err(error)` for an
 * error response.
 */
module Server {
  import opened Wrappers
  import opened Catalogue
  import opened Filtering
  import opened Ranking

  /** Position `i` holds the first book, in storage order, whose id is `id`. */
  predicate FirstWithId(books: seq<Book>, id: string, i: int)
  {
    0 <= i < |books| && books[i].id == id &&
    forall j :: 0 <= j < i ==> books[j].id != id
  }

  /** The position of the first book whose id is `id`, or none (the lookup of server.js:22 and 74). */
  function FindIndex(books: seq<Book>, id: string): (r: Option<nat>)
    ensures r.Some? ==> FirstWithId(books, id, r.value)
    ensures r.None? <==> forall j :: 0 <= j < |books| ==> books[j].id != id
  {
    if books == [] then None
    else if books[0].id == id then Some(0)
    else
      match FindIndex(books[1..], id)
      case None => None
      case Some(k) => Some(k + 1)
  }

  /** GET /books/:id: the first book with the requested id, or 404. */
  function GetBook(books: seq<Book>, id: string): (r: Result<Book, ApiError>)
    ensures r.Err? <==> forall j :: 0 <= j < |books| ==> books[j].id != id
    ensures r.Err? ==> r.error == BookNotFound
    ensures r.Ok? ==> r.value.id == id && exists i :: FirstWithId(books, id, i) && books[i] == r.value
  {
    match FindIndex(books, id)
    case None => Err(BookNotFound)
    case Some(i) => assert FirstWithId(books, id, i); Ok(books[i])
  }

  /** A `start` or `end` query parameter: its raw text and the time value it parses to. */
  datatype DateParam = DateParam(text: string, time: Option<int>)

  /** The parameter passes the `!start` / `!end` test: present and not empty. */
  predicate Provided(p: Option<DateParam>)
  {
    p.Some? && p.value.text != ""
  }

  /**
   * The publication time lies between the two bound times, both included,
   * and all three are valid dates (server.js:43): any comparison with an
   * Invalid Date is false.
   */
  predicate PublishedWithin(b: Book, start: Option<int>, end: Option<int>)
  {
    b.datePublished.Some? && start.Some? && end.Some? &&
    start.value <= b.datePublished.value <= end.value
  }

  /**
   * GET /books/date-range/search?start=&end=: 400 when either bound is
   * missing, otherwise the books published within both bounds inclusive,
   * in storage order.
   */
  function DateRangeSearch(books: seq<Book>, start: Option<DateParam>, end: Option<DateParam>)
    : (r: Result<seq<Book>, ApiError>)
    ensures r.Err? <==> !Provided(start) || !Provided(end)
    ensures r.Err? ==> r.error == MissingDateRange
    ensures r.Ok? ==>
      && (forall k :: 0 <= k < |r.value| ==> PublishedWithin(r.value[k], start.value.time, end.value.time))
      && SelectsExactly(r.value, books, b => PublishedWithin(b, start.value.time, end.value.time))
  {
    if !Provided(start) || !Provided(end) then
      Err(MissingDateRange)
    else
      var within := b => PublishedWithin(b, start.value.time, end.value.time);
      FilterSelectsExactly(books, within);
      Ok(Filter(books, within))
  }

  /** No book is published within the bounds: the search answers an empty list. */
  lemma DateRangeEmptyWhenNoneWithin(books: seq<Book>, start: Option<DateParam>, end: Option<DateParam>)
    requires Provided(start) && Provided(end)
    requires forall j :: 0 <= j < |books| ==> !PublishedWithin(books[j], start.value.time, end.value.time)
    ensures DateRangeSearch(books, start, end) == Ok([])
  {
  }

  /** The book with its score, rating times review count (server.js:51-54). */
  function WithScore(b: Book): ScoredBook
  {
    ScoredBook(b, b.rating * b.reviewCount)
  }

  /** Every book of the catalogue with its score, in storage order. */
  function Scored(books: seq<Book>): seq<ScoredBook>
  {
    seq(|books|, i requires 0 <= i < |books| => WithScore(books[i]))
  }

  /** How many books the top-rated route keeps (server.js:58). */
  const TopCount := 10

  /** Every scored book is a catalogue book carrying `rating * reviewCount`. */
  lemma ScoredFromCatalogue(books: seq<Book>, x: ScoredBook)
    requires x in multiset(Scored(books))
    ensures x.book in books && x.score == x.book.rating * x.book.reviewCount
  {
  }

  /** GET /books/top/rated: the scored books sorted by score, highest first, cut after ten. */
  function TopRated(books: seq<Book>): (r: seq<ScoredBook>)
    ensures |r| == if |books| < TopCount then |books| else TopCount
    ensures ScoresDescending(r)
  {
    var sorted := SortByScore(Scored(books));
    assert |sorted| == |books| by { assert |multiset(sorted)| == |multiset(Scored(books))|; }
    sorted[..if |books| < TopCount then |books| else TopCount]
  }

  /**
   * The top-rated answer is drawn from the scored catalogue, each entry
   * scored `rating * reviewCount`, and no book left out outscores a book kept.
   */
  lemma TopRatedKeepsBest(books: seq<Book>, r: seq<ScoredBook>)
    requires r == TopRated(books)
    ensures forall k :: 0 <= k < |r| ==>
      r[k].book in books && r[k].score == r[k].book.rating * r[k].book.reviewCount
    ensures multiset(r) <= multiset(Scored(books))
    ensures forall x, y :: x in multiset(Scored(books)) - multiset(r) && y in r ==> x.score <= y.score
  {
    var sorted := SortByScore(Scored(books));
    PrefixKeepsBest(sorted, |r|);
    forall k | 0 <= k < |r|
      ensures r[k].book in books && r[k].score == r[k].book.rating * r[k].book.reviewCount
    {
      assert r[k] in multiset(r);
      ScoredFromCatalogue(books, r[k]);
    }
  }

  /**
   * Ties follow storage order: for every score, the answer's entries with
   * that score are the first of the catalogue's entries with that score, in
   * storage order, so a tie at the cut keeps the earliest-stored books.
   */
  lemma TopRatedTiesInStorageOrder(books: seq<Book>, r: seq<ScoredBook>, v: int)
    requires r == TopRated(books)
    ensures Filter(r, ScoreIs(v)) <= Filter(Scored(books), ScoreIs(v))
  {
    var sorted := SortByScore(Scored(books));
    assert |sorted| == |books| by { assert |multiset(sorted)| == |multiset(Scored(books))|; }
    assert sorted == r + sorted[|r|..];
    FilterConcat(r, sorted[|r|..], ScoreIs(v));
    SortKeepsTiesInOrder(Scored(books), v);
  }

  /** GET /books/featured/list: exactly the books whose `featured` is true, in storage order. */
  function FeaturedList(books: seq<Book>): (r: seq<Book>)
    ensures forall k :: 0 <= k < |r| ==> r[k].featured
    ensures SelectsExactly(r, books, (b: Book) => b.featured)
  {
    var featured := (b: Book) => b.featured;
    FilterSelectsExactly(books, featured);
    Filter(books, featured)
  }

  /**
   * GET /books/:id/reviews: 404 when no book has the id; otherwise the
   * requested id, the title of the first book with that id, the number of
   * matching reviews and those reviews in storage order.
   */
  function ReviewsForBook(books: seq<Book>, reviews: seq<Review>, id: string)
    : (r: Result<BookReviews, ApiError>)
    ensures r.Err? <==> forall j :: 0 <= j < |books| ==> books[j].id != id
    ensures r.Err? ==> r.error == BookNotFound
    ensures r.Ok? ==>
      && r.value.bookId == id
      && (exists i :: FirstWithId(books, id, i) && books[i].title == r.value.bookTitle)
      && r.value.totalReviews == |r.value.reviews|
      && (forall k :: 0 <= k < |r.value.reviews| ==> r.value.reviews[k].bookId == id)
      && SelectsExactly(r.value.reviews, reviews, (v: Review) => v.bookId == id)
  {
    match GetBook(books, id)
    case Err(e) => Err(e)
    case Ok(book) =>
      var ofBook := (v: Review) => v.bookId == id;
      FilterSelectsExactly(reviews, ofBook);
      var bookReviews := Filter(reviews, ofBook);
      Ok(BookReviews(id, book.title, |bookReviews|, bookReviews))
  }
}
