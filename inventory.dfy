/** The document store's state as a value, and the guarded stock decrement every purchase relies on. */
module Inventory {
  import opened Wrappers
  import opened Entities

  /** A document of the `books` collection, keyed by its `_id` in the store.
      `checkout` holds the orders embedded by the single-document purchase. */
  datatype BookDocument = BookDocument(
    title: string,
    authors: seq<string>,
    publishDate: string,
    pages: int,
    language: string,
    publisherId: string,
    available: int,
    checkout: seq<Order>)

  /** The two collections the purchases touch: `books` by id, and `order` in insertion order. */
  datatype StoreState = StoreState(books: map<string, BookDocument>, orders: seq<OrderDocument>)

  /** The outcome of an update on `books`: the collection afterwards and the modified count. */
  datatype Updated = Updated(books: map<string, BookDocument>, modifiedCount: nat)

  /** The book read back from the document stored under `id`; its `stock` is the document's `available`. */
  function AsBook(id: string, d: BookDocument): (b: Book)
    ensures b.id == id && b.stock == d.available
  {
    Book(id, d.title, d.authors, d.publishDate, d.pages, d.language, d.publisherId, d.available)
  }

  /** No stored book has a negative stock. */
  ghost predicate StockNonNegative(books: map<string, BookDocument>) {
    forall id :: id in books ==> books[id].available >= 0
  }

  /** `after` is `before` with one copy of book `id` sold: its `available` one lower and `pushed`
      appended to its `checkout`, every other field and every other book as they were. */
  ghost predicate SoldOneCopy(before: map<string, BookDocument>, after: map<string, BookDocument>,
                              id: string, pushed: seq<Order>)
  {
    && id in before
    && after.Keys == before.Keys
    && after[id] == before[id].(available := before[id].available - 1,
                                checkout := before[id].checkout + pushed)
    && forall k :: k in before && k != id ==> after[k] == before[k]
  }

  /** The embedded order a `push("checkout", o)` adds, if any. */
  function Pushed(push: Option<Order>): seq<Order> {
    match push
    case Some(o) => [o]
    case None => []
  }

  /** The conditional update `{_id: id, available: {$gt: 0}}` with `$inc: {available: -1}` (and, when
      `push` is given, `$push: {checkout: order}`) applied to the first matching document.
      The filter names one `_id`, so at most one document is modified, and only when its stock is positive. */
  function GuardedDecrement(books: map<string, BookDocument>, id: string, push: Option<Order>): (u: Updated)
    ensures u.modifiedCount <= 1
    ensures u.modifiedCount == 1 <==> id in books && books[id].available > 0
    ensures u.modifiedCount == 1 ==> SoldOneCopy(books, u.books, id, Pushed(push)) && u.books[id].available >= 0
    ensures u.modifiedCount == 0 ==> u.books == books
    ensures StockNonNegative(books) ==> StockNonNegative(u.books)
  {
    if id in books && books[id].available > 0 then
      var d := books[id];
      Updated(books[id := d.(available := d.available - 1, checkout := d.checkout + Pushed(push))], 1)
    else
      Updated(books, 0)
  }
}
