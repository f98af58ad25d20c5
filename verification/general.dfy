/**
 The public router: registration and the read-only catalog lookups. The
 simulated latency around the lookups is dropped; each lookup either finds
 its answer (status 200) or reports NotFound (status 404).
 */
module General {
  import opened Js
  import opened Http
  import opened BooksDb
  import opened AuthUsers

  /** The outcome of a catalog lookup. */
  datatype Lookup<+T> = Found(value: T) | NotFound
  {
    function Status(): (s: Status)
      ensures s == Ok200 <==> Found?
      ensures s == NotFound404 <==> NotFound?
    {
      if Found? then Ok200 else NotFound404
    }
  }

  /** The reply to `POST /register` together with the new user store. */
  datatype RegisterReply = RegisterReply(status: Status, users: seq<User>)

  /** `POST /register`: 400 when a field is missing or empty (checked
      first), 409 when the username is taken, otherwise the record is
      appended and the answer is 200. */
  function Register(users: seq<User>, username: Option<string>, password: Option<string>): (r: RegisterReply)
    ensures !Truthy(username) || !Truthy(password) ==> r == RegisterReply(BadRequest400, users)
    ensures Truthy(username) && Truthy(password) && (exists i :: 0 <= i < |users| && users[i].username == username.value) ==>
      r == RegisterReply(Conflict409, users)
    ensures Truthy(username) && Truthy(password) && (forall i :: 0 <= i < |users| ==> users[i].username != username.value) ==>
      && r.status == Ok200
      && |r.users| == |users| + 1
      && r.users[..|users|] == users
      && r.users[|users|] == User(username.value, password.value)
  {
    if Truthy(username) && Truthy(password) then
      if IsValid(users, username.value) then
        RegisterReply(Ok200, users + [User(username.value, password.value)])
      else
        RegisterReply(Conflict409, users)
    else
      RegisterReply(BadRequest400, users)
  }

  /** Registration never lets two records share a username. */
  lemma RegisterKeepsUsernamesUnique(users: seq<User>, username: Option<string>, password: Option<string>)
    requires UniqueUsernames(users)
    ensures UniqueUsernames(Register(users, username, password).users)
  {
    var r := Register(users, username, password);
    UniqueUsernamesIff(users);
    UniqueUsernamesIff(r.users);
    if r.status == Ok200 {
      forall i, j | 0 <= i < j < |r.users|
        ensures r.users[i].username != r.users[j].username
      {
        if j < |users| {
          assert r.users[i] == users[i] && r.users[j] == users[j];
        } else {
          assert r.users[i] == users[i];
        }
      }
    }
  }

  /** Registering a name twice: the second attempt is refused with 409 and
      the store then holds exactly one record with that name. */
  lemma RegisterTwice(users: seq<User>, username: Option<string>, password: Option<string>, password2: Option<string>)
    requires UniqueUsernames(users)
    requires Truthy(username) && Truthy(password) && Truthy(password2)
    ensures var first := Register(users, username, password);
      var second := Register(first.users, username, password2);
      && second == RegisterReply(Conflict409, first.users)
      && exists i :: 0 <= i < |second.users| && second.users[i].username == username.value
           && forall j :: 0 <= j < |second.users| && second.users[j].username == username.value ==> j == i
  {
    var first := Register(users, username, password);
    RegisterKeepsUsernamesUnique(users, username, password);
    UniqueUsernamesIff(first.users);
    var i: nat;
    if first.status == Ok200 {
      i := |users|;
    } else {
      i :| i < |users| && users[i].username == username.value;
    }
    assert first.users[i].username == username.value;
    forall j | 0 <= j < |first.users| && j != i
      ensures first.users[j].username != username.value
    {
      if j < i {
        assert first.users[j].username != first.users[i].username;
      } else {
        assert first.users[i].username != first.users[j].username;
      }
    }
  }

  /** A user who has just registered can log in with the same credentials. */
  lemma RegisterThenLogin(users: seq<User>, username: Option<string>, password: Option<string>)
    requires Register(users, username, password).status == Ok200
    ensures Login(Register(users, username, password).users, username, password)
      == LoginReply(Ok200, Some(username.value))
  {
    var r := Register(users, username, password);
    assert r.users[|users|] == User(username.value, password.value);
  }

  /** `getBookList`: the whole catalog, or NotFound when it has no books. */
  function GetBookList(c: Books): (r: Lookup<map<Isbn, Book>>)
    ensures r.NotFound? <==> c.books == map[]
    ensures r.Found? ==> r.value == c.books
  {
    if |c.order| > 0 then
      assert c.order[0] in c.books;
      Found(c.books)
    else
      assert forall k :: k !in c.books;
      NotFound
  }

  /** `getBookByISBN`: the stored record, or NotFound for an unknown ISBN. */
  function GetBookByIsbn(c: Books, isbn: Isbn): (r: Lookup<Book>)
    ensures r.Found? <==> isbn in c.books
    ensures r.Found? ==> r.value == c.books[isbn]
  {
    if isbn in c.books then Found(c.books[isbn]) else NotFound
  }

  /** `GET /review/:isbn`: the book's reviews, or NotFound for an unknown ISBN. */
  function GetReviews(c: Books, isbn: Isbn): (r: Lookup<map<Username, string>>)
    ensures r.Found? <==> isbn in c.books
    ensures r.Found? ==> r.value == c.books[isbn].reviews
  {
    if isbn in c.books then Found(c.books[isbn].reviews) else NotFound
  }

  /** After a successful review PUT the review lookup shows that review, and
      the book lookup shows the same title and author as before. */
  lemma PutThenLookup(c: Books, isbn: Isbn, review: Option<string>, username: Username)
    requires PutReview(c, isbn, review, username).outcome in {Added, Modified}
    ensures var c' := PutReview(c, isbn, review, username).catalog;
      && GetReviews(c', isbn).Found?
      && username in GetReviews(c', isbn).value
      && GetReviews(c', isbn).value[username] == review.value
      && GetBookByIsbn(c', isbn).value.title == c.books[isbn].title
      && GetBookByIsbn(c', isbn).value.author == c.books[isbn].author
  {
  }

  /** After a successful review DELETE the review lookup no longer shows a
      review by that user. */
  lemma DeleteThenLookup(c: Books, isbn: Isbn, username: Username)
    requires DeleteReview(c, isbn, username).outcome == Deleted
    ensures var c' := DeleteReview(c, isbn, username).catalog;
      GetReviews(c', isbn).Found? && username !in GetReviews(c', isbn).value
  {
  }

  /** The two fields the search endpoints match on. */
  datatype Attribute = Author | Title

  function AttributeOf(book: Book, a: Attribute): string
  {
    match a
    case Author => book.author
    case Title => book.title
  }

  /** The keys the `for…in` loop of the search functions keeps: those whose
      book has `query` as its attribute, each once, in catalog order. */
  function MatchingKeys(c: Books, a: Attribute, query: string): (keys: seq<Isbn>)
    ensures forall i :: 0 <= i < |keys| ==> keys[i] in c.books && AttributeOf(c.books[keys[i]], a) == query
    ensures forall k :: multiset(keys)[k] == if k in c.books && AttributeOf(c.books[k], a) == query then 1 else 0
    ensures Subsequence(keys, c.order)
  {
    var keep := (k: Isbn) => k in c.books && AttributeOf(c.books[k], a) == query;
    FilterOfDistinct(c.order, keep);
    Filter(c.order, keep)
  }

  /** The `for…in` loop of the search functions: visit the keys in catalog
      order and push `{ isbn, ...books[isbn] }` for each book whose attribute
      equals `query` exactly. Every matching book appears once, nothing else
      appears, and the entries follow catalog order. */
  function Matches(c: Books, a: Attribute, query: string): (r: seq<Listing>)
    ensures forall i :: 0 <= i < |r| ==>
      r[i].isbn in c.books && r[i].book == c.books[r[i].isbn] && AttributeOf(r[i].book, a) == query
    ensures forall k :: multiset(Isbns(r))[k] == if k in c.books && AttributeOf(c.books[k], a) == query then 1 else 0
    ensures Subsequence(Isbns(r), c.order)
  {
    var keys := MatchingKeys(c, a, query);
    var r := seq(|keys|, i requires 0 <= i < |keys| => Listing(keys[i], c.books[keys[i]]));
    assert Isbns(r) == keys;
    r
  }

  /** The search succeeds exactly when some book matches. */
  function Search(c: Books, a: Attribute, query: string): (r: Lookup<seq<Listing>>)
    ensures r.NotFound? <==> forall k :: k in c.books ==> AttributeOf(c.books[k], a) != query
    ensures r.Found? ==> r.value == Matches(c, a, query)
  {
    var found := Matches(c, a, query);
    if |found| > 0 then Found(found)
    else
      assert forall k :: k in c.books ==> AttributeOf(c.books[k], a) != query by {
        forall k | k in c.books ensures AttributeOf(c.books[k], a) != query {
          assert multiset(Isbns(found))[k] == 0;
        }
      }
      NotFound
  }

  /** `getBooksByAuthor`: all books whose author equals `author` exactly,
      each once and in catalog order, or NotFound when there is none. */
  function GetBooksByAuthor(c: Books, author: string): (r: Lookup<seq<Listing>>)
    ensures r.NotFound? <==> forall k :: k in c.books ==> c.books[k].author != author
    ensures r.Found? ==>
      && (forall i :: 0 <= i < |r.value| ==>
            r.value[i].isbn in c.books && r.value[i].book == c.books[r.value[i].isbn] && r.value[i].book.author == author)
      && (forall k :: multiset(Isbns(r.value))[k] == if k in c.books && c.books[k].author == author then 1 else 0)
      && Subsequence(Isbns(r.value), c.order)
  {
    Search(c, Author, author)
  }

  /** `getBooksByTitle`: all books whose title equals `title` exactly, each
      once and in catalog order, or NotFound when there is none. */
  function GetBooksByTitle(c: Books, title: string): (r: Lookup<seq<Listing>>)
    ensures r.NotFound? <==> forall k :: k in c.books ==> c.books[k].title != title
    ensures r.Found? ==>
      && (forall i :: 0 <= i < |r.value| ==>
            r.value[i].isbn in c.books && r.value[i].book == c.books[r.value[i].isbn] && r.value[i].book.title == title)
      && (forall k :: multiset(Isbns(r.value))[k] == if k in c.books && c.books[k].title == title then 1 else 0)
      && Subsequence(Isbns(r.value), c.order)
  {
    Search(c, Title, title)
  }
}
