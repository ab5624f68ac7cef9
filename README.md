# Fantasy bookstore: buying one copy of a book, verified

This Dafny project models the core of a small bookstore service on a document database. The core is
"buy one copy": decrement a book's stock and record an order. The service offers four ways to do it:

- one conditional update of the book document, which embeds the order in the book's `checkout` list;
- a driver session transaction that inserts an order document, then runs the conditional decrement;
- the same two steps inside a transaction template callback;
- the same two steps as a reactive save → update → map pipeline.

The model also covers the two request handlers that resolve the customer and the book before buying,
the resolution of a customer alias to an email, and the ANSI colouring helpers of the console command
listener.

The database client is modelled by the class `MongoStore.Store`. It holds the `books` collection as a
map from id to document and the `order` collection as a sequence. The filter `_id == id && stock > 0`
with `$inc: {stock: -1}` applied to the first match becomes the function `Inventory.GuardedDecrement`. That
function reports a modified count of 0 or 1. A transaction is an explicit snapshot:

- `StartTransaction` remembers the state;
- `CommitTransaction` forgets it;
- `AbortTransaction` restores it.

The source never calls abort itself. It throws the sold-out exception and lets the library undo the
insert: closing the session, the template's rollback, or the pipeline's error signal. The model makes
that step an explicit `AbortTransaction` call at that point.

Each service method is proved against a function of the state before the call. `Purchase.AtomicBuy`
specifies the single-document service. `Purchase.TransactionalBuy` specifies the other three, and
`ReactiveOrderService.ReactiveBuy` is proved equal to it through a `Mono`. The headline properties are
stated on those functions and on `Purchase.Buy`:

- a purchase succeeds exactly when the book is stored with positive stock;
- a success takes exactly one unit from that book and none from any other, and records exactly one order;
- a sold-out failure leaves the store as it was;
- stock never becomes negative.

`Purchase.SellsExactlyStock` follows one book through a run of buyers: with `k` copies, exactly the
first `k` buyers succeed.

## Model

| member | source | states |
|---|---|---|
| `Customers.Of` | src/main/java/com/example/bookstore/Customer.java:30-55 | "christoph", "jeff" and "oliver" resolve to cstrobl@pivotal.io, jeff.yemin@mongodb.com and ogierke@pivotal.io (the table `KnownAliases`); any other alias becomes a customer whose email is the alias unchanged |
| `Customers.OfStable` | src/main/java/com/example/bookstore/Customer.java:30-55 | no resolved email is an alias, so resolving a customer's email again gives the same customer |
| `Customers.OfGuest` | src/main/java/com/example/bookstore/Customer.java:57-59 | the guest email guest@fantasy-bookstore.io is not an alias, so it resolves to the guest |
| `Inventory.AsBook` | src/main/java/com/example/bookstore/Book.java:70-71 | a book read from the store has the document's key as id and the persisted `available` as its `stock` |
| `Inventory.GuardedDecrement` | src/main/java/com/example/bookstore/sync/transaction/TransactionalOrderService.java:68-71 | the guarded decrement modifies at most one document; it modifies one exactly when the id is stored with positive stock; then that book's stock drops by exactly 1, the optional order is appended to its `checkout`, and every other book is unchanged; otherwise nothing changes; stock never becomes negative |
| `Entities.ToDocument` | src/main/java/com/example/bookstore/sync/mongonative/NativeMongoTransactionalOrderService.java:85-91 | the order document carries the customer as `by`, the date, and one `DBRef("books", id)` per book, in the same order and of the same length |
| `Entities.ToDocumentSameIff` | src/main/java/com/example/bookstore/sync/mongonative/NativeMongoTransactionalOrderService.java:85-91 | two orders map to the same document if and only if they agree on customer, date and the ids of their books |
| `MongoStore.Store.StartTransaction` | src/main/java/com/example/bookstore/sync/mongonative/NativeMongoTransactionalOrderService.java:65-67 | opening a transaction changes no data and remembers the current state |
| `MongoStore.Store.CommitTransaction` | src/main/java/com/example/bookstore/sync/mongonative/NativeMongoTransactionalOrderService.java:79 | a commit keeps every write made since the start |
| `MongoStore.Store.AbortTransaction` | src/main/java/com/example/bookstore/sync/mongonative/NativeMongoTransactionalOrderService.java:65-80 | leaving the session without a commit returns both collections to the state at the start |
| `MongoStore.Store.InsertOrder` | src/main/java/com/example/bookstore/sync/mongonative/NativeMongoTransactionalOrderService.java:69 | the order document is appended to the `order` collection and the books are untouched |
| `MongoStore.Store.UpdateFirst` | src/main/java/com/example/bookstore/sync/mongonative/NativeMongoTransactionalOrderService.java:71-73 | the store's books become those of `Inventory.GuardedDecrement`, the modified count is the one it reports, and no order changes; stock stays non-negative |
| `Purchase.AtomicCheckout` | src/main/java/com/example/bookstore/sync/atomic/AtomicOrderService.java:62-74 | success exactly when the book is stored with stock > 0; then its stock drops by 1, the pending order is appended to the end of its `checkout`, and no other book changes; the returned order has the same customer and date and the book as its list; otherwise sold-out with the store unchanged; no order document is ever written |
| `Purchase.AtomicBuy` | src/main/java/com/example/bookstore/sync/atomic/AtomicOrderService.java:56-60 | the embedded order has the customer's email, the date and no book list; the returned order lists the book |
| `Purchase.TransactionalBuy` | src/main/java/com/example/bookstore/sync/transaction/TransactionalOrderService.java:63-78 | success exactly when the book is stored with stock > 0; then exactly one order document (customer email, date, the book) is added and that book alone loses exactly one unit; otherwise sold-out, and the inserted order and every stock are rolled back |
| `Purchase.Buy` | src/main/java/com/example/bookstore/sync/web/SyncBookstoreHandler.java:44-49 | for every configured order service: success iff stock > 0; a success returns the order for the customer's email, date and book, takes exactly one unit from that book only and keeps its other fields, and records exactly one order: the single-document service appends the pending order (email, date, no list) to the end of the book's `checkout` and writes no order document, the transactional services append exactly that order's document to the `order` collection and leave `checkout` alone, earlier entries kept in both; sold-out leaves the store unchanged; stock never becomes negative |
| `Purchase.SellsExactlyStock` | src/main/java/com/example/bookstore/sync/atomic/AtomicOrderService.java:64-71 | with k copies in stock, successive buyers of the book succeed exactly for the first k and fail sold-out after; the stock ends at k minus the copies sold and no other book changes |
| `AtomicOrderService.Buy` | src/main/java/com/example/bookstore/sync/atomic/AtomicOrderService.java:56-60 | the store and the result are those of `Purchase.AtomicBuy`, and the transaction state is untouched |
| `AtomicOrderService.Checkout` | src/main/java/com/example/bookstore/sync/atomic/AtomicOrderService.java:62-74 | the store and the result are those of `Purchase.AtomicCheckout` |
| `NativeMongoTransactionalOrderService.Buy` | src/main/java/com/example/bookstore/sync/mongonative/NativeMongoTransactionalOrderService.java:60-83 | the order is inserted before the guarded decrement inside one session transaction; the store and the result are those of `Purchase.TransactionalBuy`, and no transaction is left open |
| `TransactionalOrderService.Buy` | src/main/java/com/example/bookstore/sync/transaction/TransactionalOrderService.java:59-79 | the template commits when the callback returns and rolls back when it throws; the store and the result are those of `Purchase.TransactionalBuy` |
| `TransactionalOrderService.SaveAndDecrement` | src/main/java/com/example/bookstore/sync/transaction/TransactionalOrderService.java:63-78 | the callback saves the order document first, then applies the guarded decrement; it throws sold-out when the modified count is not 1, and returns the saved order otherwise |
| `ReactiveOrderService.ReactiveBuy` | src/main/java/com/example/bookstore/reactive/transaction/ReactiveOrderService.java:57-79 | save, then the guarded decrement, with "modified count is 0" as the sold-out test: this gives the same store and the same outcome as `Purchase.TransactionalBuy`, as one order or an error and never an empty result |
| `ReactiveOrderService.Buy` | src/main/java/com/example/bookstore/reactive/transaction/ReactiveOrderService.java:57-79 | the store and the emitted result are those of `ReactiveBuy`; an error aborts the transaction and completion commits it |
| `OrderService.Buy` | src/main/java/com/example/bookstore/sync/web/SyncBookstoreHandler.java:66 | the configured implementation's `buy` gives the store and result of `Purchase.Buy` |
| `BookstoreHandler.CustomerOf` | src/main/java/com/example/bookstore/sync/web/SyncBookstoreHandler.java:64 | an absent `customer` parameter gives the guest, and a present one gives `Customer.of(param)` (the reactive handler's line 63 is the same) |
| `BookstoreHandler.FindById` | src/main/java/com/example/bookstore/reactive/web/ReactiveBookstoreHandler.java:57 | the lookup finds a book exactly when its id is stored, and then returns that book with its stored stock |
| `BookstoreHandler.FindAll` | src/main/java/com/example/bookstore/sync/web/SyncBookstoreHandler.java:52-54 | the listing contains every stored book and nothing else |
| `SyncBookstoreHandler.BookById` | src/main/java/com/example/bookstore/sync/web/SyncBookstoreHandler.java:69-73 | the stored book, or the error "No book found for id <id>" exactly when the id is not stored |
| `SyncBookstoreHandler.Order` | src/main/java/com/example/bookstore/sync/web/SyncBookstoreHandler.java:62-67 | an unknown book gives the not-found error, does not call `buy` and leaves the store unchanged; a known book gives exactly `buy(customer, book)` with the resolved customer |
| `ReactiveBookstoreHandler.BookOf` | src/main/java/com/example/bookstore/reactive/web/ReactiveBookstoreHandler.java:56-58 | the lookup result is the stored book or empty, never an error |
| `ReactiveBookstoreHandler.Order` | src/main/java/com/example/bookstore/reactive/web/ReactiveBookstoreHandler.java:61-68 | an unknown book completes empty with no error and no purchase; a known book gives exactly the reactive `buy(customer, book)` |
| `ConsoleOutMongoDBCommandListener.FgColorCode` | src/main/java/com/example/bookstore/util/ConsoleOutMongoDBCommandListener.java:62 | foreground codes lie in 30..39 without 38, and 39 belongs to DEFAULT alone |
| `ConsoleOutMongoDBCommandListener.BgColorCode` | src/main/java/com/example/bookstore/util/ConsoleOutMongoDBCommandListener.java:74-76 | background codes lie in 40..49 without 48 |
| `ConsoleOutMongoDBCommandListener.ColorCodesDecode` | src/main/java/com/example/bookstore/util/ConsoleOutMongoDBCommandListener.java:62-76 | each colour is recovered from its foreground code and from its background code minus 10, so the background code is the foreground code + 10 and no two colours share a code |
| `ConsoleOutMongoDBCommandListener.CodeDigits` | src/main/java/com/example/bookstore/util/ConsoleOutMongoDBCommandListener.java:62-76 | every code is written with two digits, and the background code is the foreground code with its leading 3 replaced by 4 |
| `ConsoleOutMongoDBCommandListener.Colored` | src/main/java/com/example/bookstore/util/ConsoleOutMongoDBCommandListener.java:55-58 | the output is ESC `[`, the foreground code, `;`, the background code, `m`, then the text, then ESC `[39;49m`; its length is the text's length + 16 |
| `ConsoleOutMongoDBCommandListener.BgColored` | src/main/java/com/example/bookstore/util/ConsoleOutMongoDBCommandListener.java:51-53 | the output is ESC `[`, 39, `;`, the background code, `m`, the text and the reset ESC `[39;49m`, of length the text's + 16: `Colored` with the DEFAULT foreground |
| `ConsoleOutMongoDBCommandListener.ColoredRoundTrip` | src/main/java/com/example/bookstore/util/ConsoleOutMongoDBCommandListener.java:55-58 | parsing a coloured string gives back its foreground, background and text |
| `ConsoleOutMongoDBCommandListener.ColoredInjective` | src/main/java/com/example/bookstore/util/ConsoleOutMongoDBCommandListener.java:55-58 | two coloured strings are equal only when their colours and texts are equal |

## Left out

- Concurrency between buyers, isolation levels and write conflicts are not modelled. Purchases are sequential calls on one store, so the "min(N, k) succeed" requirement appears as `Purchase.SellsExactlyStock` for buyers served one after another.
- The session, the transaction template, `inTransaction()` and the `Mono`/`Flux` machinery are library code. They become the store's snapshot, commit and abort. The reactive `.next()` becomes a result type that holds at most one value. Cancelling a subscription is not modelled.
- `new Date()` is a `Date` parameter.
- The unseen repositories become reads of the store's map, and the unseen exception class becomes the `Error` datatype. The listing from `findAll` is a set, so the order of the returned books is not modelled.
- Spring's mapping of `Order` in `save` is taken to give the same document as the native `toDocument`: the `by` field, the date, and one `DBRef` per book. Spring's extra type and id fields are not modelled.
- Entities.ToDocument: requires a book list. The source would throw a null-pointer exception on a null list, and its only caller always passes a list.
- HTTP response construction (`ok().body(...)`, status codes), routing, configuration, collection creation and test-data seeding are not modelled.
- The console listener's `commandStarted`, `commandSucceeded` and `commandFailed` only print. They are not modelled.
- A retry-on-write-conflict service is not part of this model. The only trace of it among the source files is an `@EnableRetry` annotation, and no retrying method exists there.
- The change-stream subscription only prints events, so it is not modelled.
- Java's 32-bit `int` is modelled as an unbounded integer. Stock is only ever decremented from a positive value, so no wrap-around can occur. Colour codes are two-digit constants.
