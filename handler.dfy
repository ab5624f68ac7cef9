/** What both request handlers share: the request's parts, customer defaulting, and reading books. */
module BookstoreHandler {
  import opened Wrappers
  import opened Entities
  import opened Customers
  import opened Inventory

  /** An order or lookup request: the `book` path variable and the optional `customer` query parameter. */
  datatype Request = Request(book: string, customer: Option<string>)

  /** The customer of a request: the alias given, resolved, or the guest when none is given. */
  function CustomerOf(request: Request): (c: Customer)
    ensures request.customer.None? ==> c == Guest()
    ensures request.customer.Some? ==> c == Of(request.customer.value)
  {
    Of(request.customer.GetOr(Guest().email))
  }

  /** The repository's `findById`: the stored book with that id, if any. */
  function FindById(books: map<string, BookDocument>, id: string): (r: Option<Book>)
    ensures r.Some? <==> id in books
    ensures r.Some? ==> r.value.id == id && r.value.stock == books[id].available
  {
    if id in books then Some(AsBook(id, books[id])) else None
  }

  /** The repository's `findAll`: every stored book, and nothing else. */
  function FindAll(books: map<string, BookDocument>): (r: set<Book>)
    ensures forall b :: b in r <==> b.id in books && b == AsBook(b.id, books[b.id])
  {
    set id | id in books :: AsBook(id, books[id])
  }
}
