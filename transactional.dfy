/** The order service whose transaction boundary is a transaction template around a callback. */
module TransactionalOrderService {
  import opened Wrappers
  import opened Entities
  import opened Customers
  import opened Inventory
  import opened MongoStore
  import Purchase

  /** The template: begin, run the callback, commit when it returns and roll back when it throws. */
  method Buy(store: Store, customer: Customer, book: Book, now: Date) returns (r: Result<Order, Error>)
    requires store.Valid() && store.transaction.None?
    modifies store
    ensures store.Valid() && store.transaction.None?
    ensures (store.State(), r) == Purchase.TransactionalBuy(old(store.State()), customer, book, now)
  {
    store.StartTransaction();
    r := SaveAndDecrement(store, customer, book, now);
    if r.Failure? {
      store.AbortTransaction();
    } else {
      store.CommitTransaction();
    }
  }

  /** The callback: save the order, then run the guarded decrement; a modified count other than one
      throws sold-out. Its writes are those of the open transaction. */
  method SaveAndDecrement(store: Store, customer: Customer, book: Book, now: Date) returns (r: Result<Order, Error>)
    requires store.Valid() && store.transaction.Some?
    modifies store
    ensures store.Valid() && store.transaction == old(store.transaction)
    ensures var order := Order(customer.email, now, Some([book]));
            var u := GuardedDecrement(old(store.books), book.id, None);
      && store.orders == old(store.orders) + [ToDocument(order)]
      && store.books == u.books
      && r == (if u.modifiedCount != 1 then Failure(BookSoldOut(book)) else Success(order))
  {
    var order := Order(customer.email, now, Some([book]));
    store.InsertOrder(ToDocument(order));
    var modifiedCount := store.UpdateFirst(book.id, None);
    if modifiedCount != 1 {
      return Failure(BookSoldOut(book));
    }
    return Success(order);
  }
}
