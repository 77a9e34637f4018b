/** The records of the catalog document: books and the reviews attached to them. */
module Books {
  import opened Wrappers
  import opened Find

  /** One review entry `{username, review, date}`; `date` is an ISO-8601 timestamp. */
  datatype Review = Review(username: string, review: string, date: string)

  /** A book of the catalog. `reviews` is `None` when the field is absent from the document. */
  datatype Book = Book(isbn: string, title: string, author: string, reviews: Option<seq<Review>>)

  /** The key the handlers look a book up by. */
  function IsbnOf(b: Book): string {
    b.isbn
  }

  /** The key the handlers look a review up by. */
  function ReviewerOf(r: Review): string {
    r.username
  }

  /** The reviews of a book, an absent field read as no reviews (`book.reviews || []`). */
  function ReviewsOf(b: Book): seq<Review> {
    b.reviews.GetOr([])
  }

  /** Every book carries at most one review per username. */
  ghost predicate UniqueReviewers(books: seq<Book>) {
    forall i :: 0 <= i < |books| ==> Distinct(Keys(ReviewsOf(books[i]), ReviewerOf))
  }

  /** An ISBN is among the catalog's ISBNs exactly when some book carries it. */
  lemma IsbnListed(books: seq<Book>, isbn: string)
    ensures isbn in Keys(books, IsbnOf) <==> exists i :: 0 <= i < |books| && books[i].isbn == isbn
  {
  }
}
