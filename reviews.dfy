/** What the three review handlers of server.js do to the catalog document, as functions from
    the catalog read at the start of a request to the response and the catalog written back. */
module Reviews {
  import opened Wrappers
  import opened Find
  import opened Books

  /** Which successful handler produced a response. */
  datatype Outcome = Listed | Added | Updated | Deleted

  /** The response of a review handler, before the gateway turns it into JSON. */
  datatype Response =
    | MissingText
    | BookNotFound
    | NoReviews
    | ReviewNotFound
    | Success(outcome: Outcome, isbn: string, reviews: seq<Review>)
  {
    /** The HTTP status the handler sends. */
    function StatusCode(): int {
      match this
      case MissingText => 400
      case Success(_, _, _) => 200
      case _ => 404
    }

    /** The `message` field of the body; the read handler sends none. */
    function Message(): Option<string> {
      match this
      case MissingText => Some("Review text is required")
      case BookNotFound => Some("Book not found")
      case NoReviews => Some("No reviews found for this book")
      case ReviewNotFound => Some("Review not found")
      case Success(Listed, _, _) => None
      case Success(Added, _, _) => Some("Review added successfully")
      case Success(Updated, _, _) => Some("Review updated successfully")
      case Success(Deleted, _, _) => Some("Review deleted successfully")
    }
  }

  /** GET /books/:isbn/review: the reviews of the first book with this ISBN. */
  function Get(books: seq<Book>, isbn: string): (r: Response)
    ensures r.Success? <==> exists i :: 0 <= i < |books| && books[i].isbn == isbn
    ensures !r.Success? ==> r == BookNotFound
    ensures r.Success? ==> r.outcome == Listed && r.isbn == isbn
  {
    IsbnListed(books, isbn);
    var i := IndexOf(Keys(books, IsbnOf), isbn);
    if i == -1 then BookNotFound else Success(Listed, isbn, ReviewsOf(books[i]))
  }

  /** A user's review written into a review list: the user's first entry gets the new text and
      date, or a new entry is appended when the user has none. */
  function UpsertInto(rs: seq<Review>, username: string, text: string, now: string): seq<Review> {
    var k := IndexOf(Keys(rs, ReviewerOf), username);
    if k == -1 then rs + [Review(username, text, now)]
    else rs[k := rs[k].(review := text, date := now)]
  }

  /** PUT /books/:isbn/review by `username` with body text `text` at time `now`.
      An absent body field is the empty string. */
  function Upsert(books: seq<Book>, isbn: string, username: string, text: string, now: string)
    : (r: (Response, seq<Book>))
    ensures r.0 == MissingText <==> text == ""
    ensures r.0 == BookNotFound <==> text != "" && isbn !in Keys(books, IsbnOf)
    ensures !r.0.Success? ==> r.1 == books
    ensures r.0.Success? ==> r.0.isbn == isbn && (r.0.outcome == Added || r.0.outcome == Updated)
    ensures r.0.Success? ==> |r.1| == |books|
  {
    if text == "" then (MissingText, books)
    else
      var i := IndexOf(Keys(books, IsbnOf), isbn);
      if i == -1 then (BookNotFound, books)
      else
        var rs := ReviewsOf(books[i]);
        var rs' := UpsertInto(rs, username, text, now);
        var outcome := if username in Keys(rs, ReviewerOf) then Updated else Added;
        (Success(outcome, isbn, rs'), books[i := books[i].(reviews := Some(rs'))])
  }

  /** DELETE /books/:isbn/review by `username`. */
  function Delete(books: seq<Book>, isbn: string, username: string): (r: (Response, seq<Book>))
    ensures r.0 == BookNotFound <==> isbn !in Keys(books, IsbnOf)
    ensures r.0 == NoReviews <==>
      isbn in Keys(books, IsbnOf) && books[IndexOf(Keys(books, IsbnOf), isbn)].reviews.None?
    ensures r.0 == ReviewNotFound <==>
      isbn in Keys(books, IsbnOf) && books[IndexOf(Keys(books, IsbnOf), isbn)].reviews.Some? &&
      username !in Keys(books[IndexOf(Keys(books, IsbnOf), isbn)].reviews.value, ReviewerOf)
    ensures !r.0.Success? ==> r.1 == books
    ensures r.0.Success? ==> r.0.isbn == isbn && r.0.outcome == Deleted && |r.1| == |books|
  {
    var i := IndexOf(Keys(books, IsbnOf), isbn);
    if i == -1 then (BookNotFound, books)
    else if books[i].reviews.None? then (NoReviews, books)
    else
      var rs := books[i].reviews.value;
      var k := IndexOf(Keys(rs, ReviewerOf), username);
      if k == -1 then (ReviewNotFound, books)
      else
        var rs' := rs[..k] + rs[k + 1..];
        (Success(Deleted, isbn, rs'), books[i := books[i].(reviews := Some(rs'))])
  }

  /** The read handler finds exactly the first book with the ISBN and reads an absent
      `reviews` field as an empty list. */
  lemma GetFindsFirstBook(books: seq<Book>, isbn: string)
    ensures Get(books, isbn).Success? <==> exists i :: 0 <= i < |books| && books[i].isbn == isbn
    ensures Get(books, isbn).Success? ==>
      exists i :: 0 <= i < |books| && books[i].isbn == isbn &&
        (forall j :: 0 <= j < i ==> books[j].isbn != isbn) &&
        Get(books, isbn) == Success(Listed, isbn, books[i].reviews.GetOr([]))
  {
  }

  /** Insert path: a user without a review on the book gets exactly one new entry, at the end;
      the earlier entries are untouched. */
  lemma UpsertAppendsNewReview(books: seq<Book>, isbn: string, username: string, text: string, now: string)
    requires text != "" && isbn in Keys(books, IsbnOf)
    requires username !in Keys(ReviewsOf(books[IndexOf(Keys(books, IsbnOf), isbn)]), ReviewerOf)
    ensures
      var rs := ReviewsOf(books[IndexOf(Keys(books, IsbnOf), isbn)]);
      var r := Upsert(books, isbn, username, text, now).0;
      r.Success? && r.outcome == Added &&
      |r.reviews| == |rs| + 1 && r.reviews[..|rs|] == rs &&
      r.reviews[|rs|] == Review(username, text, now) &&
      r.Message() == Some("Review added successfully")
  {
  }

  /** Update path: the user's existing entry gets the new text and date in place; the list keeps
      its length and every other entry. */
  lemma UpsertUpdatesOwnReview(books: seq<Book>, isbn: string, username: string, text: string, now: string)
    requires text != "" && isbn in Keys(books, IsbnOf)
    requires username in Keys(ReviewsOf(books[IndexOf(Keys(books, IsbnOf), isbn)]), ReviewerOf)
    ensures
      var rs := ReviewsOf(books[IndexOf(Keys(books, IsbnOf), isbn)]);
      var k := IndexOf(Keys(rs, ReviewerOf), username);
      var r := Upsert(books, isbn, username, text, now).0;
      r.Success? && r.outcome == Updated && |r.reviews| == |rs| &&
      r.reviews[k] == Review(username, text, now) &&
      (forall j :: 0 <= j < |rs| && j != k ==> r.reviews[j] == rs[j]) &&
      r.Message() == Some("Review updated successfully")
  {
  }

  /** A successful upsert writes the returned list into the first book with the ISBN and
      changes no other book and no other field. */
  lemma UpsertChangesOnlyThatBook(books: seq<Book>, isbn: string, username: string, text: string, now: string)
    requires Upsert(books, isbn, username, text, now).0.Success?
    ensures
      var i := IndexOf(Keys(books, IsbnOf), isbn);
      var (r, after) := Upsert(books, isbn, username, text, now);
      0 <= i < |after| &&
      after[i] == books[i].(reviews := Some(r.reviews)) &&
      forall j :: 0 <= j < |books| && j != i ==> after[j] == books[j]
  {
  }

  /** Upserting never gives a user a second review on a book. */
  lemma UpsertKeepsReviewersUnique(books: seq<Book>, isbn: string, username: string, text: string, now: string)
    requires UniqueReviewers(books)
    ensures UniqueReviewers(Upsert(books, isbn, username, text, now).1)
  {
  }

  /** Upserting twice as the same user updates the first review instead of adding a second:
      the list keeps the length the first call produced. */
  lemma UpsertTwiceUpdates(books: seq<Book>, isbn: string, username: string,
                           text: string, now: string, text2: string, now2: string)
    requires Upsert(books, isbn, username, text, now).0.Success? && text2 != ""
    ensures
      var (r1, after1) := Upsert(books, isbn, username, text, now);
      var r2 := Upsert(after1, isbn, username, text2, now2).0;
      r2.Success? && r2.outcome == Updated && |r2.reviews| == |r1.reviews| &&
      Review(username, text2, now2) in r2.reviews
  {
    var (r1, after1) := Upsert(books, isbn, username, text, now);
    var i := IndexOf(Keys(books, IsbnOf), isbn);
    assert Keys(after1, IsbnOf) == Keys(books, IsbnOf);
    var rs1 := r1.reviews;
    assert after1[i].reviews == Some(rs1);
    if username in Keys(ReviewsOf(books[i]), ReviewerOf) {
      var k := IndexOf(Keys(ReviewsOf(books[i]), ReviewerOf), username);
      assert Keys(rs1, ReviewerOf)[k] == username;
    } else {
      assert Keys(rs1, ReviewerOf)[|rs1| - 1] == username;
    }
    var k2 := IndexOf(Keys(rs1, ReviewerOf), username);
    var r2 := Upsert(after1, isbn, username, text2, now2).0;
    assert r2.reviews[k2] == Review(username, text2, now2);
  }

  /** The read handler sees what a successful upsert returned. */
  lemma GetAfterUpsert(books: seq<Book>, isbn: string, username: string, text: string, now: string)
    requires Upsert(books, isbn, username, text, now).0.Success?
    ensures
      var (r, after) := Upsert(books, isbn, username, text, now);
      Get(after, isbn) == Success(Listed, isbn, r.reviews)
  {
    var (r, after) := Upsert(books, isbn, username, text, now);
    assert Keys(after, IsbnOf) == Keys(books, IsbnOf);
  }

  /** A successful delete removes exactly the user's first entry and keeps the others in order. */
  lemma DeleteRemovesFirstMatch(books: seq<Book>, isbn: string, username: string)
    requires Delete(books, isbn, username).0.Success?
    ensures
      var i := IndexOf(Keys(books, IsbnOf), isbn);
      var (r, after) := Delete(books, isbn, username);
      0 <= i < |books| && books[i].reviews.Some? &&
      var rs := books[i].reviews.value;
      exists k :: 0 <= k < |rs| && rs[k].username == username &&
        (forall j :: 0 <= j < k ==> rs[j].username != username) &&
        r.reviews == rs[..k] + rs[k + 1..] && |r.reviews| == |rs| - 1 &&
        after[i] == books[i].(reviews := Some(r.reviews)) &&
        (forall j :: 0 <= j < |books| && j != i ==> after[j] == books[j])
  {
  }

  /** With at most one review per user, a second delete by the same user finds nothing. */
  lemma DeleteTwiceFails(books: seq<Book>, isbn: string, username: string)
    requires UniqueReviewers(books)
    requires Delete(books, isbn, username).0.Success?
    ensures Delete(Delete(books, isbn, username).1, isbn, username).0 == ReviewNotFound
  {
    var (r, after) := Delete(books, isbn, username);
    var i := IndexOf(Keys(books, IsbnOf), isbn);
    var rs := books[i].reviews.value;
    var k := IndexOf(Keys(rs, ReviewerOf), username);
    assert Keys(after, IsbnOf) == Keys(books, IsbnOf);
    assert Distinct(Keys(ReviewsOf(books[i]), ReviewerOf));
    var rs' := rs[..k] + rs[k + 1..];
    forall m | 0 <= m < |rs'|
      ensures rs'[m].username != username
    {
      if m < k {
        assert rs'[m] == rs[m];
      } else {
        assert rs'[m] == rs[m + 1];
        assert Keys(rs, ReviewerOf)[k] != Keys(rs, ReviewerOf)[m + 1];
      }
    }
  }

  /** Deleting a review just added restores a catalog whose book already had a review list. */
  lemma DeleteUndoesInsert(books: seq<Book>, isbn: string, username: string, text: string, now: string)
    requires text != "" && isbn in Keys(books, IsbnOf)
    requires books[IndexOf(Keys(books, IsbnOf), isbn)].reviews.Some?
    requires username !in Keys(ReviewsOf(books[IndexOf(Keys(books, IsbnOf), isbn)]), ReviewerOf)
    ensures
      var after := Upsert(books, isbn, username, text, now).1;
      Delete(after, isbn, username) ==
        (Success(Deleted, isbn, books[IndexOf(Keys(books, IsbnOf), isbn)].reviews.value), books)
  {
    var i := IndexOf(Keys(books, IsbnOf), isbn);
    var rs := books[i].reviews.value;
    var after := Upsert(books, isbn, username, text, now).1;
    var rs1 := rs + [Review(username, text, now)];
    assert Keys(after, IsbnOf) == Keys(books, IsbnOf);
    assert after[i].reviews == Some(rs1);
    assert Keys(rs1, ReviewerOf) == Keys(rs, ReviewerOf) + [username];
    assert IndexOf(Keys(rs1, ReviewerOf), username) == |rs|;
    assert rs1[..|rs|] + rs1[|rs| + 1..] == rs;
    assert after[i := after[i].(reviews := Some(rs))] == books;
  }

  /** Deleting keeps at most one review per user on every book. */
  lemma DeleteKeepsReviewersUnique(books: seq<Book>, isbn: string, username: string)
    requires UniqueReviewers(books)
    ensures UniqueReviewers(Delete(books, isbn, username).1)
  {
  }

  /** When the book had no `reviews` field, deleting a just-added review leaves an empty list
      behind (`[]` is truthy, so the field stays), and the catalog is not restored. */
  lemma DeleteAfterInsertLeavesEmptyList(books: seq<Book>, isbn: string, username: string, text: string, now: string)
    requires text != "" && isbn in Keys(books, IsbnOf)
    requires books[IndexOf(Keys(books, IsbnOf), isbn)].reviews.None?
    ensures
      var i := IndexOf(Keys(books, IsbnOf), isbn);
      Delete(Upsert(books, isbn, username, text, now).1, isbn, username) ==
        (Success(Deleted, isbn, []), books[i := books[i].(reviews := Some([]))])
    ensures Delete(Upsert(books, isbn, username, text, now).1, isbn, username).1 != books
    ensures
      var emptied := Delete(Upsert(books, isbn, username, text, now).1, isbn, username).1;
      Delete(emptied, isbn, username).0 == ReviewNotFound
  {
    var i := IndexOf(Keys(books, IsbnOf), isbn);
    var after := Upsert(books, isbn, username, text, now).1;
    var rs1 := [Review(username, text, now)];
    assert ReviewsOf(books[i]) == [];
    assert username !in Keys(ReviewsOf(books[i]), ReviewerOf);
    assert UpsertInto([], username, text, now) == rs1;
    assert after[i].reviews == Some(rs1);
    assert Keys(after, IsbnOf) == Keys(books, IsbnOf);
    assert Keys(rs1, ReviewerOf) == [username];
    assert IndexOf(Keys(rs1, ReviewerOf), username) == 0;
    assert rs1[..0] + rs1[1..] == [];
    var emptied := books[i := books[i].(reviews := Some([]))];
    assert after[i := after[i].(reviews := Some([]))] == emptied;
    assert Delete(after, isbn, username) == (Success(Deleted, isbn, []), emptied);
    assert emptied[i] != books[i];
    assert Keys(emptied, IsbnOf) == Keys(books, IsbnOf);
    assert Keys([], ReviewerOf) == [];
  }

  /** One user's review on a one-book catalog: added, then updated in place, then deleted. */
  lemma AddUpdateDeleteScenario(t1: string, t2: string)
    ensures
      var books := [Book("123", "Dune", "Herbert", Some([]))];
      var (r1, b1) := Upsert(books, "123", "alice", "Great", t1);
      var (r2, b2) := Upsert(b1, "123", "alice", "Even better", t2);
      var (r3, b3) := Delete(b2, "123", "alice");
      r1 == Success(Added, "123", [Review("alice", "Great", t1)]) &&
      r2 == Success(Updated, "123", [Review("alice", "Even better", t2)]) &&
      r3 == Success(Deleted, "123", []) && b3 == books &&
      Delete(b3, "123", "alice").0 == ReviewNotFound
  {
  }
}
