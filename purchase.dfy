/** What one purchase does to the store, for each way of buying a copy, as functions of the state before it;
    and what a run of purchases of one book does. */
module Purchase {
  import opened Wrappers
  import opened Entities
  import opened Customers
  import opened Inventory

  /** The order services a synchronous deployment can be configured with. */
  datatype Strategy =
    | AtomicDocument      // one conditional update of the book document
    | NativeTransaction   // a driver session transaction
    | ManagedTransaction  // a transaction template around a callback

  /** The single-document checkout: decrement the stock of `book` and embed `order` in the book's
      `checkout` list in one conditional update; a modified count other than one is a sold-out book. */
  function AtomicCheckout(s: StoreState, order: Order, book: Book): (r: (StoreState, Result<Order, Error>))
    ensures r.1.Success? <==> book.id in s.books && s.books[book.id].available > 0
    ensures r.1.Success? ==>
      && r.1.value == Order(order.customer, order.date, Some([book]))
      && SoldOneCopy(s.books, r.0.books, book.id, [order])
    ensures r.1.Failure? ==> r.0 == s && r.1.error == BookSoldOut(book)
    ensures r.0.orders == s.orders
    ensures StockNonNegative(s.books) ==> StockNonNegative(r.0.books)
  {
    var u := GuardedDecrement(s.books, book.id, Some(order));
    var after := s.(books := u.books);
    if u.modifiedCount != 1 then (after, Failure(BookSoldOut(book)))
    else (after, Success(Order(order.customer, order.date, Some([book]))))
  }

  /** The single-document purchase: the embedded order has the customer's email, the date and no book
      list; the order returned lists the book. No order document is written. */
  function AtomicBuy(s: StoreState, customer: Customer, book: Book, now: Date): (r: (StoreState, Result<Order, Error>))
    ensures r.1.Success? ==> SoldOneCopy(s.books, r.0.books, book.id, [Order(customer.email, now, None)])
    ensures r.1.Success? ==> r.1.value == Order(customer.email, now, Some([book]))
  {
    AtomicCheckout(s, Order(customer.email, now, None), book)
  }

  /** The transactional purchase shared by the native, template-managed and reactive services: insert the
      order document, then run the guarded decrement; commit when it modified one document, and otherwise
      abort, which returns the store to the state the transaction started from. */
  function TransactionalBuy(s: StoreState, customer: Customer, book: Book, now: Date): (r: (StoreState, Result<Order, Error>))
    ensures r.1.Success? <==> book.id in s.books && s.books[book.id].available > 0
    ensures r.1.Success? ==>
      && r.1.value == Order(customer.email, now, Some([book]))
      && r.0.orders == s.orders + [ToDocument(r.1.value)]
      && SoldOneCopy(s.books, r.0.books, book.id, [])
    ensures r.1.Failure? ==> r.0 == s && r.1.error == BookSoldOut(book)
    ensures StockNonNegative(s.books) ==> StockNonNegative(r.0.books)
  {
    var order := Order(customer.email, now, Some([book]));
    var inserted := s.(orders := s.orders + [ToDocument(order)]);
    var u := GuardedDecrement(inserted.books, book.id, None);
    if u.modifiedCount != 1 then (s, Failure(BookSoldOut(book)))
    else (inserted.(books := u.books), Success(order))
  }

  /** One purchase with the configured service. Whatever the service: it succeeds exactly when the book
      is stored with a positive stock; a success takes exactly one unit from that book and from no other,
      and records exactly one order (as a document or embedded in the book); a sold-out failure leaves the
      store as it was; and stock never becomes negative. */
  function Buy(strategy: Strategy, s: StoreState, customer: Customer, book: Book, now: Date): (r: (StoreState, Result<Order, Error>))
    ensures r.1.Success? <==> book.id in s.books && s.books[book.id].available > 0
    ensures r.1.Success? ==>
      && r.1.value == Order(customer.email, now, Some([book]))
      && r.0.books.Keys == s.books.Keys
      && r.0.books[book.id].available == s.books[book.id].available - 1
      && (forall id :: id in s.books && id != book.id ==> r.0.books[id] == s.books[id])
      && |r.0.orders| + |r.0.books[book.id].checkout| == |s.orders| + |s.books[book.id].checkout| + 1
    ensures r.1.Success? ==>
      if strategy == AtomicDocument then
        && SoldOneCopy(s.books, r.0.books, book.id, [Order(customer.email, now, None)])
        && r.0.orders == s.orders
      else
        && SoldOneCopy(s.books, r.0.books, book.id, [])
        && r.0.orders == s.orders + [ToDocument(r.1.value)]
    ensures r.1.Failure? ==> r.0 == s && r.1.error == BookSoldOut(book)
    ensures StockNonNegative(s.books) ==> StockNonNegative(r.0.books)
  {
    match strategy
    case AtomicDocument => AtomicBuy(s, customer, book, now)
    case NativeTransaction => TransactionalBuy(s, customer, book, now)
    case ManagedTransaction => TransactionalBuy(s, customer, book, now)
  }

  /** Buyers purchasing one copy each of `book`, one after the other; the final state and each outcome. */
  function BuyAll(strategy: Strategy, s: StoreState, book: Book, buyers: seq<(Customer, Date)>)
    : (r: (StoreState, seq<Result<Order, Error>>))
    ensures |r.1| == |buyers|
    decreases |buyers|
  {
    if buyers == [] then (s, [])
    else
      var first := Buy(strategy, s, buyers[0].0, book, buyers[0].1);
      var rest := BuyAll(strategy, first.0, book, buyers[1..]);
      (rest.0, [first.1] + rest.1)
  }

  /** With `k` copies in stock, a run of buyers sees exactly the first `k` succeed and every later one fail
      sold-out; the stock ends at `k` minus the copies sold, and no other book changes. */
  lemma {:induction false} SellsExactlyStock(strategy: Strategy, s: StoreState, book: Book, buyers: seq<(Customer, Date)>)
    requires book.id in s.books && s.books[book.id].available >= 0
    ensures var r := BuyAll(strategy, s, book, buyers);
            var k := s.books[book.id].available;
      && (forall i :: 0 <= i < |r.1| ==> (r.1[i].Success? <==> i < k))
      && (forall i :: 0 <= i < |r.1| && r.1[i].Failure? ==> r.1[i].error == BookSoldOut(book))
      && r.0.books.Keys == s.books.Keys
      && r.0.books[book.id].available == (if |buyers| <= k then k - |buyers| else 0)
      && (forall id :: id in s.books && id != book.id ==> r.0.books[id] == s.books[id])
    decreases |buyers|
  {
    if buyers != [] {
      var first := Buy(strategy, s, buyers[0].0, book, buyers[0].1);
      SellsExactlyStock(strategy, first.0, book, buyers[1..]);
      var rest := BuyAll(strategy, first.0, book, buyers[1..]);
      var r := BuyAll(strategy, s, book, buyers);
      assert r.1 == [first.1] + rest.1;
      assert r.0 == rest.0;
    }
  }
}
