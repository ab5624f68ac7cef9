/** The request handler of the synchronous deployments. */
module SyncBookstoreHandler {
  import opened Wrappers
  import opened Entities
  import opened Customers
  import opened Inventory
  import opened MongoStore
  import opened BookstoreHandler
  import Purchase
  import OrderService

  /** The book a request names, or the not-found error carrying the id in its message. */
  function BookById(books: map<string, BookDocument>, request: Request): (r: Result<Book, Error>)
    ensures r.Success? <==> request.book in books
    ensures r.Success? ==> r.value == AsBook(request.book, books[request.book])
    ensures r.Failure? ==> r.error == NoBookFound("No book found for id " + request.book)
  {
    match FindById(books, request.book)
    case Some(b) => Success(b)
    case None => Failure(NoBookFound("No book found for id " + request.book))
  }

  /** Places an order: resolve the customer, look the book up, and only then buy. An unknown book
      ends with the not-found error before `buy` runs, so the store is untouched. */
  method Order(strategy: Purchase.Strategy, store: Store, request: Request, now: Date)
    returns (r: Result<Order, Error>)
    requires store.Valid() && store.transaction.None?
    modifies store
    ensures store.Valid() && store.transaction.None?
    ensures request.book !in old(store.books) ==>
      && r == Failure(NoBookFound("No book found for id " + request.book))
      && store.State() == old(store.State())
    ensures request.book in old(store.books) ==>
      (store.State(), r) == Purchase.Buy(strategy, old(store.State()), CustomerOf(request),
                                         AsBook(request.book, old(store.books)[request.book]), now)
  {
    var customer := CustomerOf(request);
    var found := BookById(store.books, request);
    if found.Failure? {
      return Failure(found.error);
    }
    r := OrderService.Buy(strategy, store, customer, found.value, now);
  }
}
