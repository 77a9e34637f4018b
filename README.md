# Book review service — verified model

A Dafny model of the in-memory logic of a small Express book-review service
(`server.js`, `general.js`): the review handlers that read the catalog document, change one
book's review list in place and write the whole document back; the process-wide user list
behind `/register` and `/login`; the bearer-token rule in front of the review-changing routes;
and the catalog lookups by ISBN, author and title, in their async/await and Promise-callback
forms.

Modules, one per component:

- `Wrappers` (`wrappers.dfy`): `Option` (an absent JSON field) and `Result` (a value or a thrown
  `Error` message).
- `Find` (`find.dfy`): `Array.prototype.findIndex` on a key, as the function `IndexOf` and the
  scanning loop `FindIndex` proved to compute it; `Distinct`.
- `Books` (`books.dfy`): the `Book` and `Review` records and the "one review per user per book"
  predicate.
- `Reviews` (`reviews.dfy`): each review handler as a function from the catalog read at the
  start of the request to the response and the catalog written back, with the lemmas about
  them.
- `ReviewManager` (`review_manager.dfy`): class `Catalog`, whose field `books` is the catalog
  document; `GetReviews`, `PutReview` and `DeleteReview` do the scans with loops, change the
  document and are proved equal to the `Reviews` functions.
- `Credentials` (`credentials.dfy`): `RegisterUser` and `Authenticate` on the user list, their
  lemmas, and class `CredentialStore` holding the module-level `users` list.
- `Auth` (`auth.dfy`): `split(' ')`, the bearer-token extraction and the token gate.
- `Search` (`search.dfy`): ASCII lowercasing, `includes`, the filters, the six lookups and the
  lemmas that the two forms agree and that matching ignores case.

Modelling choices:

- A request body field that is absent is the empty string: the handlers test `!field`, which
  treats both alike.
- A book's `reviews` field is `None` when absent. `[]` is truthy in JavaScript, so a book whose
  last review was deleted keeps `Some([])`. A later delete on it answers "Review not found",
  not "No reviews found for this book".
- The current time (`new Date().toISOString()`) is the parameter `now`. The bcrypt salt is the
  parameter `salt`.
- bcrypt is idealised as a salted hash compared on the whole password. `Hash(p, salt)` records
  what was hashed, and `Matches(p, h)` holds exactly when `h` was computed from `p`. No other
  member reads a stored hash.
- A login token is `Token(username)`. The token library's check is the parameter `verify` of
  `AuthenticateToken`.
- The catalog that `general.js` reads is a `Document`: either parsed books or an unreadable file
  with its error message. The Promise forms reject with that message as it is. The async forms
  wrap it twice, first in `getBooks` and then in their own `catch`.

Behaviour of the code worth noting:

- The PUT handler rejects a missing review text before it reads the catalog, so that answer
  does not depend on the catalog.
- `/register` rejects an empty username or password with 400 before it looks for a duplicate
  name.
- The token gate answers 401 only for a missing token. Every failure of the token check
  (malformed, expired, bad signature) is the same 403 answer.
- `readBooks` in `server.js` turns a read failure into an empty catalog. `getBooks` in
  `general.js` throws instead.

## Model

| member | source | states |
|---|---|---|
| `Find.IndexOf` | server.js:198 | `findIndex` by key: -1 exactly when the key is absent; otherwise the index holds the key and no earlier index does |
| `Find.FindIndex` | server.js:210 | the scanning loop returns exactly `IndexOf` of its input |
| `Reviews.Upsert` | server.js:187-235 | empty text gives "Review text is required" whatever the catalog; else an unknown ISBN gives "Book not found"; on either error the catalog is not written; success reports Added or Updated for the requested ISBN and keeps the number of books |
| `Reviews.UpsertAppendsNewReview` | server.js:204-222 | a user with no review (absent list read as empty) gets exactly one new `{username, review, date}` at the end; the list grows by one, earlier entries are untouched, and the message is "Review added successfully" |
| `Reviews.UpsertUpdatesOwnReview` | server.js:209-215 | a user with a review keeps the list length; that entry now has the new text and date, every other entry is unchanged, and the message is "Review updated successfully" |
| `Reviews.UpsertChangesOnlyThatBook` | server.js:198-225 | a successful upsert writes the returned list into the first book with the ISBN, changes no other field of it and no other book |
| `Reviews.UpsertKeepsReviewersUnique` | server.js:209-223 | if every book has at most one review per user before an upsert, the same holds after it |
| `Reviews.UpsertTwiceUpdates` | server.js:209-223 | a second upsert by the same user on the same book takes the update path, keeps the length and stores the new text |
| `Reviews.GetAfterUpsert` | server.js:225-231 | the read handler then returns exactly the list the upsert responded with |
| `Reviews.Get` | server.js:103-116 | the read handler succeeds exactly when some book has the ISBN, with outcome Listed for the requested ISBN; otherwise it answers "Book not found" |
| `Reviews.GetFindsFirstBook` | server.js:103-116 | reading reviews succeeds exactly when some book has the ISBN and returns the first such book's reviews, an absent field read as `[]` |
| `Reviews.Delete` | server.js:238-272 | errors in fixed order: "Book not found" when no book has the ISBN, then "No reviews found" when its `reviews` field is absent, then "Review not found" when no entry is the user's; no write on error; success keeps the number of books |
| `Reviews.DeleteRemovesFirstMatch` | server.js:254-261 | a successful delete removes exactly the first entry of the user, keeps the rest in order (length minus one), and changes no other book |
| `Reviews.DeleteTwiceFails` | server.js:255-259 | with at most one review per user, a second delete by the same user answers "Review not found" |
| `Reviews.DeleteKeepsReviewersUnique` | server.js:261 | deleting keeps at most one review per user on every book |
| `Reviews.DeleteUndoesInsert` | server.js:216-261 | when the book already had a review list, deleting a just-added review restores the catalog exactly |
| `Reviews.DeleteAfterInsertLeavesEmptyList` | server.js:205-261 | when the book had no `reviews` field, adding and then deleting a review leaves an empty list `[]` in its place, so the catalog differs from the original, and a further delete answers "Review not found" |
| `Reviews.AddUpdateDeleteScenario` | server.js:187-272 | on a one-book catalog, add then update then delete by one user yields the expected lists, restores the catalog, and a further delete fails |
| `ReviewManager.Catalog.GetReviews` | server.js:103-116 | the GET handler answers `Reviews.Get` of the current document and changes nothing |
| `ReviewManager.Catalog.PutReview` | server.js:187-235 | the response and the new document are those of `Reviews.Upsert` on the old document; one review per user per book is preserved |
| `ReviewManager.Catalog.DeleteReview` | server.js:238-272 | the response and the new document are those of `Reviews.Delete` on the old document; one review per user per book is preserved |
| `Credentials.RegisterUser` | server.js:119-150 | missing username or password is rejected first, then an existing username; on error the list is unchanged; on success the list grows by exactly one entry at the end, with that name and a hash matching the password |
| `Credentials.Authenticate` | server.js:153-184 | the status is 400 exactly when the username or the password is missing; an unknown name is "Invalid credentials"; a token is issued only for a registered name, and it carries that name |
| `Credentials.RegisterKeepsNamesDistinct` | server.js:127-141 | registration keeps the usernames pairwise distinct |
| `Credentials.LoginSucceedsIff` | server.js:161-174 | with distinct names, a login that is not refused for missing fields either issues a token or gets the single answer "Invalid credentials"; it issues a token exactly when some user has that name and that password |
| `Credentials.RegisteredUserCanLogIn` | server.js:133-174 | a just-registered user logs in with their password and gets "Invalid credentials" with any other |
| `Credentials.RegisterPreservesOtherLogins` | server.js:141 | registering one user leaves every other name's login answer unchanged |
| `Credentials.CredentialStore.constructor` | server.js:18 | the user list starts empty |
| `Credentials.CredentialStore.Register` | server.js:119-150 | the answer and the new list are those of `RegisterUser`; names stay distinct |
| `Credentials.CredentialStore.Login` | server.js:153-184 | the answer is `Authenticate` of the current list; a token names the user who logged in |
| `Auth.SplitCount` | server.js:43 | `split(' ')` of a string without a space is its own single part, and a string with a space yields at least two parts |
| `Auth.JoinSplit` | server.js:43 | `split(' ')` loses nothing: joining the parts with single spaces gives the header back |
| `Auth.SplitPartsHaveNoSpace` | server.js:43 | no part of `split(' ')` contains a space |
| `Auth.BearerToken` | server.js:42-45 | an extracted token is non-empty and contains no space |
| `Auth.BearerTokenOfHeader` | server.js:42-47 | a header `<scheme> <token>` yields the token; a header without a space yields none (401) |
| `Auth.AuthenticateToken` | server.js:41-56 | no token gives 401 "Access token required"; a token the check rejects gives 403; otherwise the request runs as the username the token was issued for |
| `Search.GetBooks` | general.js:5-12 | a parsed catalog is returned as it is; an unreadable one is an error |
| `Search.Lower` | general.js:33 | lowercasing keeps the length and leaves no upper-case ASCII letter; a letter A-Z becomes the matching a-z letter and every other character is kept |
| `Search.LowerIdempotent` | general.js:33 | lowercasing twice is lowercasing once |
| `Search.Contains` | general.js:33 | the empty query is contained in every string, and a contained query is no longer than the string |
| `Search.ContainsIffSlice` | general.js:33 | `includes` holds exactly when the query occurs as a contiguous slice (the empty query occurs everywhere) |
| `Search.Matching` | general.js:32-34 | the filter keeps exactly the books whose lowercased field contains the lowercased query: each matching book as many times as the catalog holds it, no other book, and no more books than the catalog |
| `Search.MatchingIsSubsequence` | general.js:32-34 | the filter keeps catalog order: its result is a subsequence of the catalog |
| `Search.MatchingAnswers` | general.js:35-38 | the filtered list is non-empty exactly when some book matches |
| `Search.MatchingIgnoresCase` | general.js:48-50 | two queries with the same lowercase form select the same books |
| `Search.GetBookByIsbn` | general.js:15-26 | succeeds exactly when some book has the ISBN and returns the first such book |
| `Search.GetBooksByAuthor` | general.js:29-42 | success is a non-empty list holding each matching book as many times as the catalog does, no other book, in catalog order; no match is an error, not an empty success |
| `Search.GetBooksByTitle` | general.js:45-58 | the same contract on the `title` field |
| `Search.GetBookByIsbnPromise` | general.js:61-75 | the Promise lookup resolves exactly when some book has the ISBN, with the first such book |
| `Search.GetBooksByAuthorPromise` | general.js:77-93 | the Promise author search resolves with a non-empty list holding exactly the matching books, with their multiplicity and in catalog order, and rejects when none matches |
| `Search.GetBooksByTitlePromise` | general.js:95-111 | the same contract on the `title` field |
| `Search.IsbnLookupFormsAgree` | general.js:61-75 | the Promise form succeeds in the same cases with the same book; its error differs only by the async form's prefixes |
| `Search.AuthorSearchFormsAgree` | general.js:77-93 | the same agreement for the author search |
| `Search.TitleSearchFormsAgree` | general.js:95-111 | the same agreement for the title search |
| `Search.SearchIgnoresCase` | general.js:29-58 | author and title search give the same answer for two queries with the same lowercase form; for a readable catalog with no match, the error message quotes the query as given, not its lowercase form |

## Left out

- Express routing, body parsing, `app.listen` and the health check (server.js:1-15, 274-284),
  and the 500 answers of the `catch` blocks (server.js:65-67, 113-115, 147-149, 181-183,
  232-234, 269-271). `Response.StatusCode`, `Response.Message`, `RegisterResult.StatusCode`,
  `LoginResult.StatusCode` and `Gate.StatusCode` give the status and message each handler
  chooses.
- File I/O and JSON. The review handlers work on the document held in `Catalog.books`.
  `readBooks` turning a read failure into `[]` and `writeBooks` ignoring a write failure are
  not modelled. A failed read therefore looks like an empty catalog ("Book not found").
- Re-reading the file on every request: the model keeps the document in memory between calls.
- bcrypt is idealised (see above): its one-wayness, its cost factor and salt generation are not
  modelled.
- JWT signing, the signing key and the 24-hour expiry: `verify` is a parameter, and a token is
  only `Token(username)`.
- `new Date().toISOString()`: the timestamp is the parameter `now`, and its format is not checked.
- The Axios client functions (general.js:113-149): they are network calls to the service itself.
- `decodeURIComponent` on the author and title route parameters (server.js:83, 94).
- Request body values that are not strings (a number, `null`, an object). They are modelled as
  strings, with absent meaning empty.
- The lost-update race between concurrent requests, and the duplicate-registration race. The
  model is sequential.
- Credentials.RegisteredUserCanLogIn: assumes the whole password is compared. bcrypt uses only
  the first 72 bytes of a password, so at server.js:168 any password sharing a longer password's
  first 72 bytes also passes; the model's `Matches` is equality on the whole password.
- Search.Lower: folds only the ASCII letters A-Z, not the full Unicode `toLowerCase`.
- JSON fields of a book other than `isbn`, `title`, `author` and `reviews`, and fields of a review
  other than `username`, `review` and `date`.
