/** The records the bookstore exchanges: books, orders, and the order document stored for an order. */
module Entities {
  import opened Wrappers

  /** A point in time (`java.util.Date`), as milliseconds since the epoch; the clock itself is a parameter. */
  datatype Date = Date(millis: int)

  /** A book as the application sees it; `stock` is persisted under the field name `available`. */
  datatype Book = Book(
    id: string,
    title: string,
    authors: seq<string>,
    publishDate: string,
    pages: int,
    language: string,
    publisherId: string,
    stock: int)

  /** An order: the customer's email, when it was placed, and the books it is for.
      `books` is `None` for an order made with the two-argument constructor (a null list). */
  datatype Order = Order(customer: string, date: Date, books: Option<seq<Book>>)

  /** A reference from one document to another, by collection name and id. */
  datatype DBRef = DBRef(collectionName: string, id: string)

  /** The document stored in the `order` collection: the customer (key `by`), `date`, and one reference per book. */
  datatype OrderDocument = OrderDocument(customer: string, date: Date, books: seq<DBRef>)

  /** The two failures a purchase request can end with. */
  datatype Error =
    | BookSoldOut(book: Book)       // the guarded decrement matched no document
    | NoBookFound(message: string)  // the requested id names no book

  /** The reference stored for a book. */
  function RefTo(b: Book): DBRef { DBRef("books", b.id) }

  /** The order document for an order with a book list: customer as `by`, the date, and a
      reference into `books` for each book, in the list's order. */
  function ToDocument(o: Order): (d: OrderDocument)
    requires o.books.Some?
    ensures d.customer == o.customer && d.date == o.date
    ensures |d.books| == |o.books.value|
    ensures forall i :: 0 <= i < |d.books| ==> d.books[i] == DBRef("books", o.books.value[i].id)
  {
    OrderDocument(o.customer, o.date, seq(|o.books.value|, i requires 0 <= i < |o.books.value| => RefTo(o.books.value[i])))
  }

  /** Two orders have the same document exactly when they agree on customer, date and the ids of their books. */
  lemma ToDocumentSameIff(o1: Order, o2: Order)
    requires o1.books.Some? && o2.books.Some?
    ensures ToDocument(o1) == ToDocument(o2) <==>
      && o1.customer == o2.customer
      && o1.date == o2.date
      && |o1.books.value| == |o2.books.value|
      && forall i :: 0 <= i < |o1.books.value| ==> o1.books.value[i].id == o2.books.value[i].id
  {
  }
}
