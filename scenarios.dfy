/** A client of the synchronous handler: what callers can conclude from the contracts alone. */
module Scenarios {
  import opened Wrappers
  import opened Entities
  import opened Customers
  import opened Inventory
  import opened MongoStore
  import opened BookstoreHandler
  import Purchase
  import SyncBookstoreHandler

  /** One copy of `b1` and two buyers, `jeff` then `christoph`: the first gets the order, the second is
      told the book is sold out, the stock ends at zero, and an unknown id is not found. */
  method OneCopyTwoBuyers(strategy: Purchase.Strategy, now: Date, doc: BookDocument)
    requires doc.available == 1
  {
    var store := new Store(map["b1" := doc], []);
    var first := SyncBookstoreHandler.Order(strategy, store, Request("b1", Some("jeff")), now);
    assert first.Success? && first.value.customer == "jeff.yemin@mongodb.com";
    var second := SyncBookstoreHandler.Order(strategy, store, Request("b1", Some("christoph")), now);
    assert second.Failure? && second.error.BookSoldOut?;
    assert store.books["b1"].available == 0;
    var missing := SyncBookstoreHandler.Order(strategy, store, Request("b2", None), now);
    assert "No book found for id " + "b2" == "No book found for id b2";
    assert missing == Failure(NoBookFound("No book found for id b2"));
  }
}
