# Bookstore review service: a Dafny model of its in-memory store

The service is a small Express application. It has a public router with
registration and catalog lookups, and an authenticated router with login and
per-user review writes. All of its state lives in two in-memory collections:

- the **user store**, an ordered array of `{username, password}` records;
- the **book catalog**, an object from ISBN to `{title, author, reviews}`,
  where `reviews` maps a username to that user's review text.

This project models every handler that reads or writes these collections.
Each handler is a pure function from the current state and the request fields
to a reply that holds the status and the new state. The modules follow the
source files:

- `Js` (`js.dfy`) covers the JavaScript semantics the handlers rely on.
  A request field is `Option<string>`, where `None` is `undefined`.
  `Truthy` is `!!x` for such a field.
  `Filter` is `Array.prototype.filter`.
- `Http` (`http.dfy`) holds the status codes the handlers send.
- `BooksDb` (`booksdb.dfy`) holds the catalog types.
  A catalog carries `order`, the sequence in which `for…in` visits its keys.
  The subset type `Books` requires that `order` lists every key exactly once.
- `AuthUsers` (`auth_users.dfy`) models `router/auth_users.js`:
  `isValid`, `authenticatedUser`, `POST /login`, and `PUT`/`DELETE /auth/review/:isbn`.
- `General` (`general.dfy`) models `router/general.js`:
  `POST /register`, `getBookList`, `getBookByISBN`, `getBooksByAuthor`,
  `getBooksByTitle` and `GET /review/:isbn`.

JavaScript truthiness is fixed as follows:

- `!username`, `!password` and `!review` are true when the field is absent or
  is the empty string.
- `reviews[u]` is truthy when the key is present and its review is non-empty
  (`BooksDb.HasReview`).

As a result, a stored empty review counts as "no review". A PUT over it
reports Added, and a DELETE of it answers 404. The comment at
`auth_users.js:86` speaks of the user having "already reviewed the book", but
the test beneath it is the truthiness of `reviews[username]`, and the model
follows the test.

The catalog lookups behind `GET /`, `/isbn`, `/author` and `/title` wait on a
timer and read the live catalog only when it fires. Registrations and review
writes may run while they wait. Each lookup reads the catalog in a single step
when its timer fires, so the model evaluates it against the catalog as it
stands at that moment.

## Model

| member | source | states |
|---|---|---|
| Js.Filter | final_project/router/auth_users.js:16-18 | `users.filter(p)` keeps exactly the elements satisfying `p`, each as often as in the input, and in input order (a subsequence) |
| Js.FilterNonEmpty | final_project/router/auth_users.js:19-23 | the filtered array has positive length iff some element satisfies the predicate |
| AuthUsers.IsValid | final_project/router/auth_users.js:14-24 | a username is available iff it is non-empty and no record carries it |
| AuthUsers.AuthenticatedUser | final_project/router/auth_users.js:32-41 | true iff some record has exactly this username and this password |
| AuthUsers.Login | final_project/router/auth_users.js:44-69 | 400 if either field is absent or empty, checked before the credentials; otherwise 200 iff the credentials match a record, else 208; only a 200 writes the session authorization (for that username), a 400 or 208 leaves the session as it was; the user store is only read |
| AuthUsers.WrongPasswordRejected | final_project/router/auth_users.js:53-68 | with unique usernames, a registered user who sends any other password gets 208 |
| AuthUsers.ReviewOutcome.Status | final_project/router/auth_users.js:78-114 | a review request answers 200 iff it added, modified or deleted a review; 404 iff the book is unknown or the user has no review to delete; 400 iff the review text is missing |
| AuthUsers.PutReview | final_project/router/auth_users.js:72-96 | unknown ISBN: 404 with the catalog unchanged, checked before the review; empty or absent review: 400 with the catalog unchanged; otherwise `reviews[user]` becomes the review, the outcome is Modified iff the user had a truthy review and Added otherwise, and every other reviewer, every other book, the title, the author and the key order are unchanged |
| AuthUsers.DeleteReview | final_project/router/auth_users.js:99-115 | unknown ISBN, or no truthy review by the user: 404 with the catalog unchanged; otherwise exactly that user's key is removed and everything else is kept |
| AuthUsers.PutReviewIdempotent | final_project/router/auth_users.js:86-95 | repeating a successful PUT reports Modified and leaves the catalog as the first PUT left it |
| AuthUsers.PutThenDelete | final_project/router/auth_users.js:86-111 | a user's first review, once deleted, leaves the catalog exactly as it was before the PUT |
| AuthUsers.DeleteThenPut | final_project/router/auth_users.js:87-111 | after a successful DELETE, a PUT by the same user reports Added |
| AuthUsers.ReviewsStayNonEmpty | final_project/router/auth_users.js:82-111 | if every stored review is non-empty, it stays so after any PUT or DELETE |
| General.Register | final_project/router/general.js:90-103 | 400 with the store unchanged if either field is absent or empty, checked before the duplicate check; 409 with the store unchanged if the name is taken; otherwise 200, and exactly one record `{username, password}` is appended after the unchanged earlier records |
| General.RegisterKeepsUsernamesUnique | final_project/router/general.js:94-100 | registration preserves "no two records share a username" |
| General.RegisterTwice | final_project/router/general.js:94-100 | registering a name a second time answers 409, and the store then holds exactly one record with that name |
| General.RegisterThenLogin | final_project/router/general.js:94-97 | after a successful registration, logging in with the same credentials answers 200 and opens a session for that user |
| General.Lookup.Status | final_project/router/general.js:106-161 | a lookup handler answers 200 iff the lookup found its answer and 404 iff it did not |
| General.GetBookList | final_project/router/general.js:11-22 | fails iff the catalog has no books; otherwise returns the whole catalog |
| General.GetBookByIsbn | final_project/router/general.js:29-40 | returns the stored record iff the ISBN is a key, otherwise NotFound |
| General.GetReviews | final_project/router/general.js:153-162 | returns the book's reviews iff the ISBN is a key, otherwise NotFound |
| General.PutThenLookup | final_project/router/general.js:153-162 | after a successful PUT the review lookup shows the user's new review, and the book lookup shows the old title and author |
| General.DeleteThenLookup | final_project/router/general.js:155-158 | after a successful DELETE the review lookup shows no review by that user |
| General.Matches | final_project/router/general.js:50-55 | the `for…in` loop yields only matching books, each with its ISBN and stored record; every matching book appears exactly once; the entries follow catalog key order |
| General.Search | final_project/router/general.js:56-60 | the search answers NotFound iff no book matches |
| General.GetBooksByAuthor | final_project/router/general.js:47-63 | NotFound iff no book's author equals the query exactly; otherwise every entry has that author and its stored record, every such book appears exactly once, in catalog order |
| General.GetBooksByTitle | final_project/router/general.js:70-86 | the same contract, matched on exact title equality |

## Left out

- HTTP plumbing is not modelled: Express routing, request and response objects, and JSON serialisation. Each reply is a status plus the new state; message texts are outcome tags.
- The simulated 600 ms delays (`setTimeout` inside Promises) are not modelled. Their only functional effect is to choose the catalog state a lookup reads, and the catalog is a parameter of every lookup.
- Token signing and verification (`jsonwebtoken`) and `express-session` are not modelled; they are foreign library code with cryptography and a clock. A successful login records the username in the session; the token is opaque. The acting user of a review request is a parameter.
- `final_project/index.js` is not part of this model: session setup, the authentication middleware (the 403 answers) and `app.listen`.
- `booksdb.js` is not part of this model. The initial catalog is an arbitrary `Books` value, and the `for…in` key order is an arbitrary enumeration of its keys. JavaScript itself puts integer-like keys first in ascending order.
- Request fields are either absent or strings. JSON bodies and repeated query parameters can carry numbers, arrays or objects, whose truthiness and `===` comparison differ; those are not modelled.
- Catalog and review lookups see only the object's own keys. In JavaScript, `books[isbn]` and `reviews[username]` also find names inherited from `Object.prototype`, such as `constructor` or `toString`; those are not modelled.
- Interleaving of requests is not modelled as such. Node runs one callback at a time. Each write handler (register, login, review PUT and DELETE) and each timer callback of a lookup reads and writes the store in one uninterrupted step. So every request is one state transition, applied at the moment its step runs.
