/**
 * The records the bookstore serves. They come from `data/books.json` and
 * `data/reviews.json`; the model receives them as sequences in storage order.
 */
module Catalogue {
  import opened Wrappers

  /**
   * A book of the catalogue, with the fields the read queries use.
   * `datePublished` is the time value that JavaScript's `new Date(...)` yields
   * for the stored date string; `None` stands for an Invalid Date (NaN).
   * `rating` is kept in tenths of a star (4.5 is 45), so that the score
   * `rating * reviewCount` is exact. `id` is the stored id string, compared
   * strictly with the requested one, and `featured` holds whether the stored
   * value is the boolean true (a string "true" or a 1 does not count).
   */
  datatype Book = Book(
    id: string,
    title: string,
    author: string,
    datePublished: Option<int>,
    rating: int,
    reviewCount: int,
    featured: bool)

  /**
   * A review; `bookId` is the stored string naming the book it belongs to,
   * compared strictly with the requested id (a numeric `bookId` never matches).
   */
  datatype Review = Review(
    id: string,
    bookId: string,
    author: string,
    rating: int,
    comment: string,
    verified: bool)

  /** A book together with the `score` field the top-rated route adds to it. */
  datatype ScoredBook = ScoredBook(book: Book, score: int)

  /** The body of a successful `/books/:id/reviews` answer. */
  datatype BookReviews = BookReviews(
    bookId: string,
    bookTitle: string,
    totalReviews: int,
    reviews: seq<Review>)

  /** An error answer: the HTTP status and the `error` message of the JSON body. */
  datatype ApiError = ApiError(status: int, message: string)

  const BookNotFound := ApiError(404, "Book not found")
  const MissingDateRange := ApiError(400, "Please provide both start and end dates")
}
