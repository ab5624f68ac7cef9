/** The order service that uses a driver session transaction directly. */
module NativeMongoTransactionalOrderService {
  import opened Wrappers
  import opened Entities
  import opened Customers
  import opened Inventory
  import opened MongoStore
  import Purchase

  /** Builds the order, then in one transaction inserts its document and runs the guarded decrement.
      A modified count other than one throws sold-out before the commit; closing the session then
      aborts the transaction, so the inserted document disappears with it. */
  method Buy(store: Store, customer: Customer, book: Book, now: Date) returns (r: Result<Order, Error>)
    requires store.Valid() && store.transaction.None?
    modifies store
    ensures store.Valid() && store.transaction.None?
    ensures (store.State(), r) == Purchase.TransactionalBuy(old(store.State()), customer, book, now)
  {
    var order := Order(customer.email, now, Some([book]));
    store.StartTransaction();
    store.InsertOrder(ToDocument(order));
    var modifiedCount := store.UpdateFirst(book.id, None);
    if modifiedCount != 1 {
      store.AbortTransaction();
      return Failure(BookSoldOut(book));
    }
    store.CommitTransaction();
    return Success(order);
  }
}
