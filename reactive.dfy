/** The reactive order service: save, then update, then map, inside a transaction, taking the first emission. */
module ReactiveOrderService {
  import opened Wrappers
  import opened Entities
  import opened Customers
  import opened Inventory
  import opened MongoStore
  import Purchase

  /** The pipeline as a function of the state: save the order, then run the guarded decrement; a modified
      count of zero is an error signal, which makes the transaction abort. It is the transactional
      purchase, seen through a `Mono`: testing for zero agrees with testing for "not one" because the
      update modifies at most one document. */
  function ReactiveBuy(s: StoreState, customer: Customer, book: Book, now: Date): (r: (StoreState, Mono<Order, Error>))
    ensures r.0 == Purchase.TransactionalBuy(s, customer, book, now).0
    ensures r.1 == ToMono(Purchase.TransactionalBuy(s, customer, book, now).1)
    ensures !r.1.Empty?
  {
    var order := Order(customer.email, now, Some([book]));
    var saved := s.(orders := s.orders + [ToDocument(order)]);
    var u := GuardedDecrement(saved.books, book.id, None);
    if u.modifiedCount == 0 then (s, Error(BookSoldOut(book)))
    else (saved.(books := u.books), Just(order))
  }

  /** Runs the pipeline in a transaction: commit on completion, abort on the error signal. */
  method Buy(store: Store, customer: Customer, book: Book, now: Date) returns (r: Mono<Order, Error>)
    requires store.Valid() && store.transaction.None?
    modifies store
    ensures store.Valid() && store.transaction.None?
    ensures (store.State(), r) == ReactiveBuy(old(store.State()), customer, book, now)
  {
    var order := Order(customer.email, now, Some([book]));
    store.StartTransaction();
    store.InsertOrder(ToDocument(order));
    var modifiedCount := store.UpdateFirst(book.id, None);
    if modifiedCount == 0 {
      store.AbortTransaction();
      return Error(BookSoldOut(book));
    }
    store.CommitTransaction();
    return Just(order);
  }
}
