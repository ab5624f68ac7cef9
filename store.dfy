/** The document store as the purchases use it: the `books` and `order` collections, updated in place,
    and one transaction at a time, made explicit as a snapshot that a commit drops and an abort restores. */
module MongoStore {
  import opened Wrappers
  import opened Entities
  import opened Inventory

  class Store {
    var books: map<string, BookDocument>
    var orders: seq<OrderDocument>
    /** The state when the open transaction started; `None` when no transaction is open. */
    var transaction: Option<StoreState>

    /** The visible contents of both collections. */
    function State(): StoreState
      reads this
    {
      StoreState(books, orders)
    }

    /** Stock is never negative, neither now nor in the state an abort would return to. */
    ghost predicate Valid()
      reads this
    {
      && StockNonNegative(books)
      && (transaction.Some? ==> StockNonNegative(transaction.value.books))
    }

    constructor (books0: map<string, BookDocument>, orders0: seq<OrderDocument>)
      requires StockNonNegative(books0)
      ensures Valid() && transaction.None?
      ensures State() == StoreState(books0, orders0)
    {
      books := books0;
      orders := orders0;
      transaction := None;
    }

    /** Opens a transaction, remembering the state to return to on abort. */
    method StartTransaction()
      requires Valid() && transaction.None?
      modifies this
      ensures Valid() && transaction == Some(old(State()))
      ensures State() == old(State())
    {
      transaction := Some(State());
    }

    /** Commits: every write since the start stays, and nothing is remembered any more. */
    method CommitTransaction()
      requires Valid() && transaction.Some?
      modifies this
      ensures Valid() && transaction.None?
      ensures State() == old(State())
    {
      transaction := None;
    }

    /** Aborts: every write since the start is undone. */
    method AbortTransaction()
      requires Valid() && transaction.Some?
      modifies this
      ensures Valid() && transaction.None?
      ensures State() == old(transaction.value)
    {
      books := transaction.value.books;
      orders := transaction.value.orders;
      transaction := None;
    }

    /** Inserts an order document at the end of the `order` collection. */
    method InsertOrder(doc: OrderDocument)
      requires Valid()
      modifies this
      ensures Valid() && transaction == old(transaction)
      ensures orders == old(orders) + [doc] && books == old(books)
    {
      orders := orders + [doc];
    }

    /** Runs `GuardedDecrement` on `books` and reports the modified count. */
    method UpdateFirst(id: string, push: Option<Order>) returns (modifiedCount: nat)
      requires Valid()
      modifies this
      ensures Valid() && transaction == old(transaction)
      ensures Updated(books, modifiedCount) == Inventory.GuardedDecrement(old(books), id, push)
      ensures orders == old(orders)
    {
      var u := Inventory.GuardedDecrement(books, id, push);
      books := u.books;
      modifiedCount := u.modifiedCount;
    }
  }
}
