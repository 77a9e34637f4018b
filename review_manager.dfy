/** The review handlers of server.js as operations on the catalog document. The document is the
    field `books`: each handler reads it, changes the copy in place and writes it back whole. */
module ReviewManager {
  import opened Wrappers
  import opened Find
  import opened Books
  import opened Reviews

  class Catalog {
    /** The catalog document as last written. */
    var books: seq<Book>

    /** Every book carries at most one review per user. */
    ghost predicate Valid()
      reads this
    {
      UniqueReviewers(books)
    }

    constructor (books: seq<Book>)
      ensures this.books == books
    {
      this.books := books;
    }

    /** GET /books/:isbn/review. */
    method GetReviews(isbn: string) returns (r: Response)
      ensures r == Get(books, isbn)
      ensures r.Success? ==> r.isbn == isbn && isbn in Keys(books, IsbnOf)
    {
      var i := FindIndex(Keys(books, IsbnOf), isbn);
      if i == -1 {
        return BookNotFound;
      }
      r := Success(Listed, isbn, ReviewsOf(books[i]));
    }

    /** PUT /books/:isbn/review: `username` comes from the verified token, `text` from the body
        (the empty string when absent) and `now` is the timestamp of the request. */
    method PutReview(isbn: string, username: string, text: string, now: string) returns (r: Response)
      modifies this
      ensures (r, books) == Upsert(old(books), isbn, username, text, now)
      ensures old(Valid()) ==> Valid()
    {
      if text == "" {
        return MissingText;
      }
      var i := FindIndex(Keys(books, IsbnOf), isbn);
      if i == -1 {
        return BookNotFound;
      }
      // an absent `reviews` field is first initialised to the empty list
      var rs := ReviewsOf(books[i]);
      var k := FindIndex(Keys(rs, ReviewerOf), username);
      if k != -1 {
        rs := rs[k := rs[k].(review := text, date := now)];
      } else {
        rs := rs + [Review(username, text, now)];
      }
      if Valid() {
        UpsertKeepsReviewersUnique(books, isbn, username, text, now);
      }
      books := books[i := books[i].(reviews := Some(rs))];
      r := Success(if k != -1 then Updated else Added, isbn, rs);
    }

    /** DELETE /books/:isbn/review by `username`. */
    method DeleteReview(isbn: string, username: string) returns (r: Response)
      modifies this
      ensures (r, books) == Delete(old(books), isbn, username)
      ensures old(Valid()) ==> Valid()
    {
      var i := FindIndex(Keys(books, IsbnOf), isbn);
      if i == -1 {
        return BookNotFound;
      }
      if books[i].reviews.None? {
        return NoReviews;
      }
      var rs := books[i].reviews.value;
      var k := FindIndex(Keys(rs, ReviewerOf), username);
      if k == -1 {
        return ReviewNotFound;
      }
      rs := rs[..k] + rs[k + 1..];
      if Valid() {
        DeleteKeepsReviewersUnique(books, isbn, username);
      }
      books := books[i := books[i].(reviews := Some(rs))];
      r := Success(Deleted, isbn, rs);
    }
  }
}
