/** The synchronous order service interface: the deployment picks one implementation at start-up. */
module OrderService {
  import opened Wrappers
  import opened Entities
  import opened Customers
  import opened MongoStore
  import Purchase
  import AtomicOrderService
  import NativeMongoTransactionalOrderService
  import TransactionalOrderService

  /** `buy` on the configured implementation. */
  method Buy(strategy: Purchase.Strategy, store: Store, customer: Customer, book: Book, now: Date)
    returns (r: Result<Order, Error>)
    requires store.Valid() && store.transaction.None?
    modifies store
    ensures store.Valid() && store.transaction.None?
    ensures (store.State(), r) == Purchase.Buy(strategy, old(store.State()), customer, book, now)
  {
    match strategy
    case AtomicDocument =>
      r := AtomicOrderService.Buy(store, customer, book, now);
    case NativeTransaction =>
      r := NativeMongoTransactionalOrderService.Buy(store, customer, book, now);
    case ManagedTransaction =>
      r := TransactionalOrderService.Buy(store, customer, book, now);
  }
}
