/** The order service that buys with one conditional update of the book document. */
module AtomicOrderService {
  import opened Wrappers
  import opened Entities
  import opened Customers
  import opened Inventory
  import opened MongoStore
  import Purchase

  /** Buys one copy of `book` for `customer` at time `now`: the pending order carries no book list. */
  method Buy(store: Store, customer: Customer, book: Book, now: Date) returns (r: Result<Order, Error>)
    requires store.Valid()
    modifies store
    ensures store.Valid() && store.transaction == old(store.transaction)
    ensures (store.State(), r) == Purchase.AtomicBuy(old(store.State()), customer, book, now)
  {
    var order := Order(customer.email, now, None);
    r := Checkout(store, order, book);
  }

  /** Decrements the stock and pushes `order` onto the book's `checkout` list in one update of the
      first document matching the id with positive stock; anything but one modified document is sold out. */
  method Checkout(store: Store, order: Order, book: Book) returns (r: Result<Order, Error>)
    requires store.Valid()
    modifies store
    ensures store.Valid() && store.transaction == old(store.transaction)
    ensures (store.State(), r) == Purchase.AtomicCheckout(old(store.State()), order, book)
  {
    var modifiedCount := store.UpdateFirst(book.id, Some(order));
    if modifiedCount != 1 {
      return Failure(BookSoldOut(book));
    }
    return Success(Order(order.customer, order.date, Some([book])));
  }
}
