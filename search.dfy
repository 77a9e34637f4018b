/** The catalog lookups of general.js: exact lookup by ISBN and case-insensitive substring search
    on author and title, each in an async/await form and a Promise-callback form. The catalog
    document is given already read; a read or parse failure is its own case. */
module Search {
  import opened Wrappers
  import opened Find
  import opened Books

  /** The catalog document as `fs.readFile` and `JSON.parse` deliver it. */
  datatype Document = Parsed(books: seq<Book>) | Unreadable(reason: string)

  /** `getBooks`: the parsed catalog, or the read error rethrown with its prefix. */
  function GetBooks(doc: Document): (r: Result<seq<Book>>)
    ensures r.Ok? <==> doc.Parsed?
    ensures r.Ok? ==> r.value == doc.books
  {
    match doc
    case Parsed(books) => Ok(books)
    case Unreadable(reason) => Err("Error reading books: " + reason)
  }

  /** The message of the error an async lookup rethrows from its `catch` block. */
  function Retrieving(what: string, message: string): string {
    "Error retrieving " + what + ": " + message
  }

  /** ASCII case folding of one character. */
  function LowerChar(c: char): char {
    if 'A' <= c <= 'Z' then (c as int + 32) as char else c
  }

  /** `s.toLowerCase()`, restricted to ASCII letters. */
  function Lower(s: string): (r: string)
    ensures |r| == |s|
    ensures forall i :: 0 <= i < |r| ==> !('A' <= r[i] <= 'Z')
    ensures forall i :: 0 <= i < |s| && !('A' <= s[i] <= 'Z') ==> r[i] == s[i]
    ensures forall i :: 0 <= i < |s| && 'A' <= s[i] <= 'Z' ==> r[i] as int == s[i] as int + ('a' as int - 'A' as int)
  {
    seq(|s|, i requires 0 <= i < |s| => LowerChar(s[i]))
  }

  /** Lowercasing twice is lowercasing once, so a query and its lowercase form search alike. */
  lemma LowerIdempotent(s: string)
    ensures Lower(Lower(s)) == Lower(s)
  {
  }

  predicate StartsWith(s: string, prefix: string) {
    |prefix| <= |s| && s[..|prefix|] == prefix
  }

  /** `s.includes(sub)`: some suffix of `s` starts with `sub`. */
  predicate Contains(s: string, sub: string)
    ensures sub == [] ==> Contains(s, sub)
    ensures Contains(s, sub) ==> |sub| <= |s|
    decreases |s|
  {
    StartsWith(s, sub) || (s != [] && Contains(s[1..], sub))
  }

  /** `sub` occurs in `s` starting at index `i`. */
  predicate OccursAt(s: string, sub: string, i: int) {
    0 <= i <= |s| - |sub| && s[i..i + |sub|] == sub
  }

  /** `Contains` holds exactly when `sub` occurs as a contiguous slice of `s`. */
  lemma {:induction false} ContainsIffSlice(s: string, sub: string)
    ensures Contains(s, sub) <==> exists i :: OccursAt(s, sub, i)
    decreases |s|
  {
    if StartsWith(s, sub) {
      assert OccursAt(s, sub, 0);
    } else if s != [] {
      ContainsIffSlice(s[1..], sub);
      if Contains(s[1..], sub) {
        var j :| OccursAt(s[1..], sub, j);
        assert s[1..][j..j + |sub|] == s[j + 1..j + 1 + |sub|];
        assert OccursAt(s, sub, j + 1);
      }
      if i :| OccursAt(s, sub, i) {
        assert i != 0;
        assert s[1..][i - 1..i - 1 + |sub|] == s[i..i + |sub|];
        assert OccursAt(s[1..], sub, i - 1);
      }
    }
  }

  /** The field a search compares against. */
  datatype Field = Author | Title

  function FieldOf(b: Book, f: Field): string {
    match f
    case Author => b.author
    case Title => b.title
  }

  /** The filter callback: the lowercased field contains the lowercased query. */
  predicate MatchesQuery(b: Book, f: Field, query: string) {
    Contains(Lower(FieldOf(b, f)), Lower(query))
  }

  /** `books.filter(...)` with that callback. */
  function Matching(books: seq<Book>, f: Field, query: string): (r: seq<Book>)
    ensures forall b :: b in r <==> b in books && MatchesQuery(b, f, query)
    ensures forall b :: multiset(r)[b] == if MatchesQuery(b, f, query) then multiset(books)[b] else 0
    ensures |r| <= |books|
  {
    if books == [] then []
    else
      assert books == [books[0]] + books[1..];
      (if MatchesQuery(books[0], f, query) then [books[0]] else []) + Matching(books[1..], f, query)
  }

  /** `a` can be obtained from `b` by deleting elements, the rest kept in order. */
  predicate IsSubsequence<T(==)>(a: seq<T>, b: seq<T>)
    decreases |b|
  {
    a == [] || (b != [] && if a[0] == b[0] then IsSubsequence(a[1..], b[1..]) else IsSubsequence(a, b[1..]))
  }

  /** The filter keeps the catalog order. */
  lemma {:induction false} MatchingIsSubsequence(books: seq<Book>, f: Field, query: string)
    ensures IsSubsequence(Matching(books, f, query), books)
  {
    if books != [] {
      MatchingIsSubsequence(books[1..], f, query);
      var rest := Matching(books[1..], f, query);
      var r := Matching(books, f, query);
      if MatchesQuery(books[0], f, query) {
        assert r == [books[0]] + rest;
        assert r[0] == books[0] && r[1..] == rest;
      } else if rest != [] {
        assert r == rest;
        assert rest[0] in rest;
        assert r[0] != books[0];
      }
    }
  }

  /** Two queries with the same lowercase form select the same books. */
  lemma {:induction false} MatchingIgnoresCase(books: seq<Book>, f: Field, q1: string, q2: string)
    requires Lower(q1) == Lower(q2)
    ensures Matching(books, f, q1) == Matching(books, f, q2)
  {
    if books != [] {
      MatchingIgnoresCase(books[1..], f, q1, q2);
    }
  }

  /** `getBookByISBN`: the first book whose ISBN equals the argument. */
  function GetBookByIsbn(doc: Document, isbn: string): (r: Result<Book>)
    ensures doc.Parsed? ==> (r.Ok? <==> exists i :: 0 <= i < |doc.books| && doc.books[i].isbn == isbn)
    ensures r.Ok? ==> doc.Parsed?
    ensures r.Ok? ==>
      exists i :: 0 <= i < |doc.books| && doc.books[i] == r.value && r.value.isbn == isbn &&
        (forall j :: 0 <= j < i ==> doc.books[j].isbn != isbn)
  {
    match GetBooks(doc)
    case Err(m) => Err(Retrieving("book by ISBN", m))
    case Ok(books) =>
      IsbnListed(books, isbn);
      var i := IndexOf(Keys(books, IsbnOf), isbn);
      if i == -1 then
        Err(Retrieving("book by ISBN", "Book with ISBN " + isbn + " not found"))
      else Ok(books[i])
  }

  /** What a successful author or title search promises: a non-empty list of exactly the
      matching books, in catalog order. */
  ghost predicate SearchAnswer(doc: Document, f: Field, query: string, r: Result<seq<Book>>) {
    (doc.Parsed? ==> (r.Ok? <==> exists b :: b in doc.books && MatchesQuery(b, f, query))) &&
    (r.Ok? ==>
      doc.Parsed? && |r.value| > 0 &&
      (forall b :: b in r.value <==> b in doc.books && MatchesQuery(b, f, query)) &&
      (forall b :: multiset(r.value)[b] == if MatchesQuery(b, f, query) then multiset(doc.books)[b] else 0) &&
      IsSubsequence(r.value, doc.books))
  }

  /** The matching books of a parsed catalog, with the facts `SearchAnswer` needs. */
  lemma MatchingAnswers(books: seq<Book>, f: Field, query: string)
    ensures Matching(books, f, query) != [] <==> exists b :: b in books && MatchesQuery(b, f, query)
    ensures IsSubsequence(Matching(books, f, query), books)
  {
    MatchingIsSubsequence(books, f, query);
    var r := Matching(books, f, query);
    if r != [] {
      assert r[0] in r;
    }
  }

  /** `getBooksByAuthor`: books whose author contains the query, ignoring case; no match is an error. */
  function GetBooksByAuthor(doc: Document, author: string): (r: Result<seq<Book>>)
    ensures SearchAnswer(doc, Author, author, r)
  {
    match GetBooks(doc)
    case Err(m) => Err(Retrieving("books by author", m))
    case Ok(books) =>
      MatchingAnswers(books, Author, author);
      var found := Matching(books, Author, author);
      if |found| == 0 then Err(Retrieving("books by author", "No books found by author: " + author))
      else Ok(found)
  }

  /** `getBooksByTitle`: books whose title contains the query, ignoring case; no match is an error. */
  function GetBooksByTitle(doc: Document, title: string): (r: Result<seq<Book>>)
    ensures SearchAnswer(doc, Title, title, r)
  {
    match GetBooks(doc)
    case Err(m) => Err(Retrieving("books by title", m))
    case Ok(books) =>
      MatchingAnswers(books, Title, title);
      var found := Matching(books, Title, title);
      if |found| == 0 then Err(Retrieving("books by title", "No books found with title: " + title))
      else Ok(found)
  }

  /** `getBooksByISBNPromise`: read errors are passed on unwrapped. */
  function GetBookByIsbnPromise(doc: Document, isbn: string): (r: Result<Book>)
    ensures doc.Parsed? ==> (r.Ok? <==> exists i :: 0 <= i < |doc.books| && doc.books[i].isbn == isbn)
    ensures r.Ok? ==> doc.Parsed?
    ensures r.Ok? ==>
      exists i :: 0 <= i < |doc.books| && doc.books[i] == r.value && r.value.isbn == isbn &&
        (forall j :: 0 <= j < i ==> doc.books[j].isbn != isbn)
  {
    match doc
    case Unreadable(reason) => Err(reason)
    case Parsed(books) =>
      IsbnListed(books, isbn);
      var i := IndexOf(Keys(books, IsbnOf), isbn);
      if i != -1 then Ok(books[i]) else Err("Book with ISBN " + isbn + " not found")
  }

  /** `getBooksByAuthorPromise`. */
  function GetBooksByAuthorPromise(doc: Document, author: string): (r: Result<seq<Book>>)
    ensures SearchAnswer(doc, Author, author, r)
  {
    match doc
    case Unreadable(reason) => Err(reason)
    case Parsed(books) =>
      MatchingAnswers(books, Author, author);
      var found := Matching(books, Author, author);
      if |found| > 0 then Ok(found) else Err("No books found by author: " + author)
  }

  /** `getBooksByTitlePromise`. */
  function GetBooksByTitlePromise(doc: Document, title: string): (r: Result<seq<Book>>)
    ensures SearchAnswer(doc, Title, title, r)
  {
    match doc
    case Unreadable(reason) => Err(reason)
    case Parsed(books) =>
      MatchingAnswers(books, Title, title);
      var found := Matching(books, Title, title);
      if |found| > 0 then Ok(found) else Err("No books found with title: " + title)
  }

  /** The async form's error message for the Promise form's `message`: prefixed with what was
      being retrieved, and with the read-error prefix of `getBooks` when the catalog is unreadable. */
  function AsyncMessage(doc: Document, what: string, message: string): string {
    Retrieving(what, if doc.Unreadable? then "Error reading books: " + message else message)
  }

  /** The two forms of the ISBN lookup succeed on the same catalogs with the same book; their
      errors differ only by the async form's prefix. */
  lemma IsbnLookupFormsAgree(doc: Document, isbn: string)
    ensures GetBookByIsbnPromise(doc, isbn).Ok? == GetBookByIsbn(doc, isbn).Ok?
    ensures GetBookByIsbn(doc, isbn).Ok? ==> GetBookByIsbnPromise(doc, isbn) == GetBookByIsbn(doc, isbn)
    ensures GetBookByIsbn(doc, isbn).Err? ==>
      GetBookByIsbn(doc, isbn).message ==
        AsyncMessage(doc, "book by ISBN", GetBookByIsbnPromise(doc, isbn).message)
  {
  }

  /** The two forms of the author search agree in the same way. */
  lemma AuthorSearchFormsAgree(doc: Document, author: string)
    ensures GetBooksByAuthorPromise(doc, author).Ok? == GetBooksByAuthor(doc, author).Ok?
    ensures GetBooksByAuthor(doc, author).Ok? ==>
      GetBooksByAuthorPromise(doc, author) == GetBooksByAuthor(doc, author)
    ensures GetBooksByAuthor(doc, author).Err? ==>
      GetBooksByAuthor(doc, author).message ==
        AsyncMessage(doc, "books by author", GetBooksByAuthorPromise(doc, author).message)
  {
  }

  /** The two forms of the title search agree in the same way. */
  lemma TitleSearchFormsAgree(doc: Document, title: string)
    ensures GetBooksByTitlePromise(doc, title).Ok? == GetBooksByTitle(doc, title).Ok?
    ensures GetBooksByTitle(doc, title).Ok? ==>
      GetBooksByTitlePromise(doc, title) == GetBooksByTitle(doc, title)
    ensures GetBooksByTitle(doc, title).Err? ==>
      GetBooksByTitle(doc, title).message ==
        AsyncMessage(doc, "books by title", GetBooksByTitlePromise(doc, title).message)
  {
  }

  /** Author and title searches ignore case: two queries with the same lowercase form (such as
      a query and its lowercase form) succeed together and return the same books. */
  lemma SearchIgnoresCase(doc: Document, q1: string, q2: string)
    requires Lower(q1) == Lower(q2)
    ensures GetBooksByAuthor(doc, q1).Ok? == GetBooksByAuthor(doc, q2).Ok?
    ensures GetBooksByAuthor(doc, q1).Ok? ==> GetBooksByAuthor(doc, q1).value == GetBooksByAuthor(doc, q2).value
    ensures GetBooksByTitle(doc, q1).Ok? == GetBooksByTitle(doc, q2).Ok?
    ensures GetBooksByTitle(doc, q1).Ok? ==> GetBooksByTitle(doc, q1).value == GetBooksByTitle(doc, q2).value
    ensures doc.Parsed? && GetBooksByAuthor(doc, q1).Err? ==>
      GetBooksByAuthor(doc, q1).message == Retrieving("books by author", "No books found by author: " + q1)
    ensures doc.Parsed? && GetBooksByTitle(doc, q1).Err? ==>
      GetBooksByTitle(doc, q1).message == Retrieving("books by title", "No books found with title: " + q1)
  {
    if doc.Parsed? {
      MatchingIgnoresCase(doc.books, Author, q1, q2);
      MatchingIgnoresCase(doc.books, Title, q1, q2);
    }
  }
}
