/**
 The authenticated router: the user store with its availability and
 credential checks, the login decision, and the per-user review upsert and
 delete. Handlers are pure functions from the current state and the request
 fields to a reply carrying the status and the new state.
 */
module AuthUsers {
  import opened Js
  import opened Http
  import opened BooksDb

  /** A registered user; the password is stored as sent. */
  datatype User = User(username: Username, password: string)

  /** The usernames of the store, in record order. */
  ghost function Usernames(users: seq<User>): seq<Username>
  {
    seq(|users|, i requires 0 <= i < |users| => users[i].username)
  }

  /** The invariant registration maintains: at most one record per username. */
  ghost predicate UniqueUsernames(users: seq<User>)
  {
    Distinct(Usernames(users))
  }

  /** Unique usernames, stated record by record. */
  lemma UniqueUsernamesIff(users: seq<User>)
    ensures UniqueUsernames(users) <==>
      forall i, j :: 0 <= i < j < |users| ==> users[i].username != users[j].username
  {
    var names := Usernames(users);
    assert forall i :: 0 <= i < |users| ==> names[i] == users[i].username;
  }

  /** `isValid`: the username may be registered, i.e. it is non-empty and no
      record carries it yet. */
  function IsValid(users: seq<User>, username: Username): (available: bool)
    ensures available <==> username != "" && forall i :: 0 <= i < |users| ==> users[i].username != username
  {
    if username == "" then false
    else
      var sameName := Filter(users, (user: User) => user.username == username);
      FilterNonEmpty(users, (user: User) => user.username == username);
      |sameName| == 0
  }

  /** `authenticatedUser`: some record has exactly this username and password. */
  function AuthenticatedUser(users: seq<User>, username: Username, password: string): (ok: bool)
    ensures ok <==> exists i :: 0 <= i < |users| && users[i] == User(username, password)
  {
    var matching := Filter(users, (user: User) => user.username == username && user.password == password);
    FilterNonEmpty(users, (user: User) => user.username == username && user.password == password);
    |matching| > 0
  }

  /** The reply to `POST /login`. `authorization` is what the request writes
      into the client's session: the logged-in user on success (the signed
      token stored beside it is opaque and not modelled), `None` when the
      request leaves the session as it was, so an earlier login stays in force. */
  datatype LoginReply = LoginReply(status: Status, authorization: Option<Username>)

  /** `POST /login`: 400 when a field is missing or empty (checked first),
      200 and a new session authorization for valid credentials, 208
      otherwise; only a 200 writes the session. */
  function Login(users: seq<User>, username: Option<string>, password: Option<string>): (r: LoginReply)
    ensures !Truthy(username) || !Truthy(password) ==> r == LoginReply(BadRequest400, None)
    ensures Truthy(username) && Truthy(password) ==>
      && r.status in {Ok200, AlreadyReported208}
      && (r.status == Ok200 <==> exists i :: 0 <= i < |users| && users[i] == User(username.value, password.value))
    ensures r.status == Ok200 ==> r.authorization == Some(username.value)
    ensures r.status != Ok200 ==> r.authorization == None
  {
    if !Truthy(username) || !Truthy(password) then LoginReply(BadRequest400, None)
    else if AuthenticatedUser(users, username.value, password.value) then LoginReply(Ok200, Some(username.value))
    else LoginReply(AlreadyReported208, None)
  }

  /** With unique usernames, a registered user who sends a different password
      is turned away with 208. */
  lemma WrongPasswordRejected(users: seq<User>, i: nat, password: string)
    requires UniqueUsernames(users)
    requires i < |users| && users[i].username != "" && password != ""
    requires users[i].password != password
    ensures Login(users, Some(users[i].username), Some(password)).status == AlreadyReported208
  {
    UniqueUsernamesIff(users);
    forall j | 0 <= j < |users|
      ensures users[j] != User(users[i].username, password)
    {
      if j < i {
        assert users[j].username != users[i].username;
      } else if i < j {
        assert users[i].username != users[j].username;
      }
    }
  }

  /** How a review request ended; `Status` gives the code each one is sent with. */
  datatype ReviewOutcome = BookNotFound | ReviewRequired | Added | Modified | Deleted | NoReview
  {
    function Status(): (s: Status)
      ensures s == Ok200 <==> this in {Added, Modified, Deleted}
      ensures s == NotFound404 <==> this in {BookNotFound, NoReview}
      ensures s == BadRequest400 <==> this == ReviewRequired
    {
      match this
      case BookNotFound => NotFound404
      case ReviewRequired => BadRequest400
      case Added => Ok200
      case Modified => Ok200
      case Deleted => Ok200
      case NoReview => NotFound404
    }
  }

  datatype ReviewReply = ReviewReply(outcome: ReviewOutcome, catalog: Books)

  /** `c'` differs from `c` at most in the reviews of book `isbn`. */
  ghost predicate OnlyReviewsOf(c: Books, c': Books, isbn: Isbn)
  {
    && c'.order == c.order
    && c'.books.Keys == c.books.Keys
    && (forall k :: k in c.books && k != isbn ==> c'.books[k] == c.books[k])
    && (isbn in c.books ==>
          c'.books[isbn].title == c.books[isbn].title && c'.books[isbn].author == c.books[isbn].author)
  }

  /** Every reviewer other than `username` keeps exactly the review they had. */
  ghost predicate OthersKept(reviews: map<Username, string>, reviews': map<Username, string>, username: Username)
  {
    && (forall u :: u in reviews && u != username ==> u in reviews' && reviews'[u] == reviews[u])
    && (forall u :: u in reviews' && u != username ==> u in reviews)
  }

  /** `PUT /auth/review/:isbn` by the logged-in `username`. */
  function PutReview(c: Books, isbn: Isbn, review: Option<string>, username: Username): (r: ReviewReply)
    ensures isbn !in c.books ==> r == ReviewReply(BookNotFound, c)
    ensures isbn in c.books && !Truthy(review) ==> r == ReviewReply(ReviewRequired, c)
    ensures isbn in c.books && Truthy(review) ==>
      && (r.outcome == Modified <==> HasReview(c.books[isbn].reviews, username))
      && (r.outcome == Added <==> !HasReview(c.books[isbn].reviews, username))
      && OnlyReviewsOf(c, r.catalog, isbn)
      && username in r.catalog.books[isbn].reviews
      && r.catalog.books[isbn].reviews[username] == review.value
      && OthersKept(c.books[isbn].reviews, r.catalog.books[isbn].reviews, username)
  {
    if isbn !in c.books then ReviewReply(BookNotFound, c)
    else if !Truthy(review) then ReviewReply(ReviewRequired, c)
    else
      var book := c.books[isbn];
      var outcome := if HasReview(book.reviews, username) then Modified else Added;
      var book' := book.(reviews := book.reviews[username := review.value]);
      ReviewReply(outcome, c.(books := c.books[isbn := book']))
  }

  /** `DELETE /auth/review/:isbn` by the logged-in `username`. */
  function DeleteReview(c: Books, isbn: Isbn, username: Username): (r: ReviewReply)
    ensures isbn !in c.books ==> r == ReviewReply(BookNotFound, c)
    ensures isbn in c.books && !HasReview(c.books[isbn].reviews, username) ==> r == ReviewReply(NoReview, c)
    ensures isbn in c.books && HasReview(c.books[isbn].reviews, username) ==>
      && r.outcome == Deleted
      && OnlyReviewsOf(c, r.catalog, isbn)
      && username !in r.catalog.books[isbn].reviews
      && OthersKept(c.books[isbn].reviews, r.catalog.books[isbn].reviews, username)
  {
    if isbn !in c.books then ReviewReply(BookNotFound, c)
    else
      var book := c.books[isbn];
      if HasReview(book.reviews, username) then
        var book' := book.(reviews := book.reviews - {username});
        ReviewReply(Deleted, c.(books := c.books[isbn := book']))
      else ReviewReply(NoReview, c)
  }

  /** Sending the same review twice: the second request reports Modified and
      changes nothing. */
  lemma PutReviewIdempotent(c: Books, isbn: Isbn, review: Option<string>, username: Username)
    requires PutReview(c, isbn, review, username).outcome in {Added, Modified}
    ensures var c' := PutReview(c, isbn, review, username).catalog;
      PutReview(c', isbn, review, username) == ReviewReply(Modified, c')
  {
    var c' := PutReview(c, isbn, review, username).catalog;
    var book := c'.books[isbn];
    assert book.reviews[username := review.value] == book.reviews;
    assert book.(reviews := book.reviews) == book;
    assert c'.books[isbn := book] == c'.books;
  }

  /** Adding a first review and deleting it again restores the catalog. */
  lemma PutThenDelete(c: Books, isbn: Isbn, review: Option<string>, username: Username)
    requires isbn in c.books && username !in c.books[isbn].reviews && Truthy(review)
    ensures var put := PutReview(c, isbn, review, username);
      put.outcome == Added && DeleteReview(put.catalog, isbn, username) == ReviewReply(Deleted, c)
  {
    var book := c.books[isbn];
    var c' := PutReview(c, isbn, review, username).catalog;
    var book' := c'.books[isbn];
    assert book'.reviews - {username} == book.reviews;
    assert book'.(reviews := book.reviews) == book;
    assert c'.books[isbn := book] == c.books;
  }

  /** After a review is deleted, writing one again reports Added. */
  lemma DeleteThenPut(c: Books, isbn: Isbn, review: Option<string>, username: Username)
    requires DeleteReview(c, isbn, username).outcome == Deleted && Truthy(review)
    ensures PutReview(DeleteReview(c, isbn, username).catalog, isbn, review, username).outcome == Added
  {
  }

  /** Review writes reject empty text, so a catalog whose reviews are all
      non-empty stays that way under PUT and DELETE. */
  lemma ReviewsStayNonEmpty(c: Books, isbn: Isbn, review: Option<string>, username: Username)
    requires ReviewsNonEmpty(c)
    ensures ReviewsNonEmpty(PutReview(c, isbn, review, username).catalog)
    ensures ReviewsNonEmpty(DeleteReview(c, isbn, username).catalog)
  {
  }
}
