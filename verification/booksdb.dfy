/**
 The book catalog shared by both routers: a JavaScript object from ISBN to
 book record. Its seed contents are not part of this model, so every
 operation takes the catalog as a parameter.
 */
module BooksDb {
  import opened Js

  type Isbn = string
  type Username = string

  /** A book record; `reviews` maps a reviewer's username to the review text. */
  datatype Book = Book(title: string, author: string, reviews: map<Username, string>)

  /** The catalog object. `order` is the sequence in which `for…in` visits the
      keys of `books`. */
  datatype Catalog = Catalog(order: seq<Isbn>, books: map<Isbn, Book>)
  {
    /** `order` lists every key of `books` exactly once and nothing else. */
    ghost predicate Enumerated()
    {
      && Distinct(order)
      && (forall k :: k in order <==> k in books)
    }
  }

  /** Catalogs whose key order is an enumeration of their keys. */
  type Books = c: Catalog | c.Enumerated() witness Catalog([], map[])

  /** `book.reviews[username]` is truthy: present and not the empty string. */
  predicate HasReview(reviews: map<Username, string>, username: Username)
  {
    username in reviews && |reviews[username]| > 0
  }

  /** Every stored review is a non-empty string. */
  ghost predicate ReviewsNonEmpty(c: Catalog)
  {
    forall k, u :: k in c.books && u in c.books[k].reviews ==> |c.books[k].reviews[u]| > 0
  }

  /** `{ isbn, ...books[isbn] }`: a search result entry. */
  datatype Listing = Listing(isbn: Isbn, book: Book)

  /** The ISBNs of a list of search results, in the same order. */
  function Isbns(ls: seq<Listing>): (ks: seq<Isbn>)
    ensures |ks| == |ls|
    ensures forall i :: 0 <= i < |ls| ==> ks[i] == ls[i].isbn
  {
    seq(|ls|, i requires 0 <= i < |ls| => ls[i].isbn)
  }
}
