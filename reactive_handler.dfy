/** The request handler of the reactive deployment. */
module ReactiveBookstoreHandler {
  import opened Wrappers
  import opened Entities
  import opened Customers
  import opened Inventory
  import opened MongoStore
  import opened BookstoreHandler
  import ReactiveOrderService

  /** The book a request names, as a `Mono` that completes empty when there is none; never an error. */
  function BookOf(books: map<string, BookDocument>, request: Request): (r: Mono<Book, Error>)
    ensures !r.Error?
    ensures r.Just? <==> request.book in books
    ensures r.Just? ==> r.value == AsBook(request.book, books[request.book])
  {
    match FindById(books, request.book)
    case Some(b) => Just(b)
    case None => Empty
  }

  /** Places an order: resolve the customer, look the book up, and buy only when it is found. An unknown
      book completes empty, with no error and no purchase. */
  method Order(store: Store, request: Request, now: Date) returns (r: Mono<Order, Error>)
    requires store.Valid() && store.transaction.None?
    modifies store
    ensures store.Valid() && store.transaction.None?
    ensures request.book !in old(store.books) ==> r == Empty && store.State() == old(store.State())
    ensures request.book in old(store.books) ==>
      (store.State(), r) == ReactiveOrderService.ReactiveBuy(old(store.State()), CustomerOf(request),
                                                             AsBook(request.book, old(store.books)[request.book]), now)
  {
    var customer := CustomerOf(request);
    var found := BookOf(store.books, request);
    if !found.Just? {
      return Empty;
    }
    r := ReactiveOrderService.Buy(store, customer, found.value, now);
  }
}
