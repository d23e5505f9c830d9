# Shop back end: orders, products and users

This project models the core of a small shop's HTTP back end and proves
properties of the model. It has two versions.

The current version (FastifyV2) runs on PostgreSQL and has four tables:
users, products, orders and order_items. An order holds several items. Placing
an order runs these steps:

1. It checks that the user exists.
2. It checks each item in order: the product must exist and have enough stock.
   The check records the price as the price at purchase and adds up the total.
3. One transaction then inserts the order header and one item row per line,
   keyed by (order_id, product_id).
4. The same transaction takes each line's quantity off its product's stock.

Products and users have create, read, update and delete operations:

- Users keep their e-mail addresses unique.
- A user is never returned with the password hash.
- Products keep a price in cents and a stock count.
- Every request body and query string is declared with a zod schema, and the
  model takes those schemas as the request validators: invalid input is
  refused with 400 (see "Left out").

The legacy version (Fastify, on SQLite) has single-product orders, product
CRUD with the same price format, and ids read with `parseInt`. The template
helper `capitalize` completes the core.

How the model is built:

- Each table is a `map` from key to row. `Tables.Db` holds the four tables and
  the serial counters.
- The tables live in a class, `Storage.Store` (and `LegacyTables.Store`), whose
  fields the handlers update in place.
- Each handler is written twice:
  - a function from the tables before to the reply and the tables after, which
    the lemmas are about;
  - a method on the store that does the work and is proved to leave exactly
    those tables.
- Order placement keeps the source's loops. `OrderService.ValidateItems` is the
  validation loop with its running total, and `OrderService.TakeStock` is the
  stock-decrement loop. Both are proved against the functions
  `PlaceOrder.CheckItems`, `PlaceOrder.Total` and `PlaceOrder.Decrement`.
- Money is kept in integer cents. A numeric(10, 2) column holds at most 10^10 − 1
  cents; a larger value makes the insert fail.
- Integer columns are checked against the 32-bit range. An id taken from a
  request is compared with an integer column, so an id outside that range is a
  database error (`IntegerOutOfRange`) before any row is looked up.
- A serial counter that has handed out 2^31 − 1 refuses the next insert
  (`SequenceExhausted`).
- Errors are variants of `Wrappers.Error`, which stand for the HTTP statuses:
  - `Invalid` and `Missing` are 400;
  - `NotFound` is 404;
  - `EmailExists` is the 400 "Email already exists";
  - `DuplicateKey`, `ForeignKeyViolation`, `NumericOverflow`,
    `IntegerOutOfRange`, `SequenceExhausted` and `ValueTooLong` are database errors that reach the
    client as 500.

Three consequences of the source that the model makes explicit:

- The stock pre-check looks at each line on its own, and the stock decrement is
  unconditional. What keeps stock from going negative is the primary key of
  order_items: an order cannot name the same product twice. A repeated product
  passes the pre-check even when the two quantities add up to more than the
  stock (`PlaceOrder.PreCheckAloneAllowsOverdraw`). The item insert then fails
  with a duplicate key, so nothing is written.
- When both filters are given, `findAll` calls `.where` twice. The query builder
  keeps the last condition, so only the status filter applies. The model claims
  that and nothing more.
- The legacy routes ignore whatever follows the digits of an id, so `12abc`
  reads as 12 (`LegacyTables.ParseRowIdOfDigits`).

## Model

| member | source | states |
|---|---|---|
| Numbers.NatToDigits | FastifyV2/src/modules/order/order.schema.ts:19 | the decimal spelling of n reads back as n and has no leading zero |
| Numbers.TrimStart | Fastify/src/routes/orders.js:49 | the white space parseInt skips: a suffix of the input whose first character is not white space, with only white space cut off |
| Numbers.DigitPrefixLength | Fastify/src/routes/orders.js:49 | the digits parseInt reads: the longest prefix made only of digits |
| Numbers.ParseInt | Fastify/src/routes/orders.js:49 | parseInt(text, 10): leading white space skipped, one optional sign, then the longest run of digits; None stands for NaN. Its meaning is stated by ParseIntReads, ParseIntRefuses and ParseIntOfDigits |
| Numbers.ParseIntOfDigits | Fastify/src/routes/orders.js:49 | parseInt(text, 10) of a number's decimal spelling, followed by anything that does not start with a digit, is that number |
| Numbers.ParseIntReads | Fastify/src/routes/orders.js:49 | parseInt(text, 10) skips leading white space, takes one optional sign, and reads the digits up to the first non-digit; a '-' negates the value |
| Numbers.ParseIntRefuses | Fastify/src/routes/orders.js:49-52 | parseInt is NaN when no digit follows the white space and the sign |
| Numbers.DecimalNumber | FastifyV2/src/modules/order/order.schema.ts:19 | Number(text) for the spellings modelled: defined exactly for digit strings, with their exact decimal value (no rounding, see "Left out"), and 0 for the empty string |
| Params.ParseId | FastifyV2/src/modules/order/order.schema.ts:18-20 | an id parameter is accepted exactly when it is a digit string whose value is positive, and then it is that value |
| Params.ParseLimit | FastifyV2/src/modules/order/order.schema.ts:23 | limit defaults to 10; a given limit is accepted exactly when it is a digit string with value 1..100, and it is then that value; otherwise the error names limit |
| Params.ParseOffset | FastifyV2/src/modules/order/order.schema.ts:24 | offset defaults to 0; a given offset is accepted exactly when it is a digit string, and it is then that value; otherwise the error names offset |
| Params.Page | FastifyV2/src/modules/order/order.repository.ts:29 | LIMIT/OFFSET: no rows when offset is past the end, limit rows when that many follow, else the rest; row i of the page is row offset + i of the input |
| OrderSchema.ParseStatus | FastifyV2/src/modules/order/order.schema.ts:11 | accepts exactly the five status names, and the status returned is the one with that name |
| OrderSchema.StatusNamesRoundTrip | FastifyV2/src/modules/order/order.schema.ts:11 | every status's name parses back to that status |
| OrderSchema.ParseCreateOrder | FastifyV2/src/modules/order/order.schema.ts:3-12 | accepted exactly when the user id is positive, there is at least one item, every item has a positive product id and quantity, and the status is absent or valid; items are kept in order, and status defaults to pending |
| OrderSchema.ParseUpdateOrder | FastifyV2/src/modules/order/order.schema.ts:14-16 | accepted exactly when the status is absent or valid; an absent status stays absent |
| OrderSchema.ParseListOrdersQuery | FastifyV2/src/modules/order/order.schema.ts:22-27 | accepted exactly when limit, offset and a given user id parse and a given status is valid; the values are the parsed ones (limit 10, offset 0 by default), the user id and status are present exactly when given, and a bad limit is reported as such |
| Tables.RowsInScan | FastifyV2/src/modules/product/product.repository.ts:9 | the rows of a table listed in the database's scan order, one per scanned id |
| Tables.UniqueEmails | FastifyV2/src/db/schema/user.schema.ts:7 | the unique constraint on users.email: no two users hold the same address |
| Tables.UsersOk | FastifyV2/src/db/schema/user.schema.ts:5-13 | every user is stored under its serial id, below the next id the sequence hands out (at most 2^31), and e-mails are unique |
| Tables.ProductsOk | FastifyV2/src/db/schema/product.schema.ts:5-13 | every product is stored under its serial id, below the next id, with a price that fits numeric(10, 2) and a stock within 0..2^31 − 1 |
| Tables.OrdersOk | FastifyV2/src/db/schema/order.schema.ts:6-15 | every order is stored under its serial id, below the next id, refers to an existing user and has a total that fits numeric(10, 2) |
| Tables.ItemsOk | FastifyV2/src/db/schema/orderItem.schema.ts:6-21 | every item is stored under its (order_id, product_id) key, its order and product exist, and its quantity and price fit their columns |
| Tables.Valid | FastifyV2/src/db/schema/index.ts:11-20 | the four tables together satisfy every constraint above; Empty establishes it and every write's KeepsValid lemma preserves it |
| Tables.Empty | FastifyV2/src/db/schema/order.schema.ts:6-15 | the freshly migrated database satisfies every table constraint |
| Tables.EmailTaken | FastifyV2/src/modules/user/user.repository.ts:17-20 | findByEmail finds a row: some user holds the address |
| Tables.DeleteOrderRows | FastifyV2/src/db/schema/orderItem.schema.ts:9-11 | deleting an order removes it and, by ON DELETE CASCADE, exactly its items; every surviving order and item keeps its value, and users, products and the serial counters are untouched |
| Tables.DeleteUserRows | FastifyV2/src/db/schema/order.schema.ts:8-10 | deleting a user cascades to exactly that user's orders and to their items; every surviving user, order and item keeps its value, and products and the serial counters are untouched |
| Tables.DeleteProductRows | FastifyV2/src/db/schema/orderItem.schema.ts:12-14 | ON DELETE RESTRICT: deleting a product fails exactly when an order item refers to it; otherwise only the product goes |
| Tables.DeleteOrderKeepsValid | FastifyV2/src/db/schema/orderItem.schema.ts:9-11 | the cascade leaves no orphan item and keeps every table constraint |
| Tables.DeleteUserKeepsValid | FastifyV2/src/db/schema/order.schema.ts:8-10 | the cascade through orders leaves no orphan order or item |
| Tables.DeleteProductKeepsValid | FastifyV2/src/db/schema/orderItem.schema.ts:12-14 | a permitted product delete keeps every table constraint |
| Tables.InsertRows | FastifyV2/src/db/schema/orderItem.schema.ts:18-20 | a multi-row insert into order_items: on success the keys are the old ones plus the new rows' keys, old rows are kept and each new row is stored under its (order_id, product_id) |
| Tables.InsertRowsSucceedsIff | FastifyV2/src/db/schema/orderItem.schema.ts:18-20 | the insert succeeds exactly when no new key is already taken and no two new rows share a key |
| Tables.InsertRowsRefusesDuplicate | FastifyV2/src/db/schema/orderItem.schema.ts:18-20 | the only way the insert fails is a duplicate key |
| PlaceOrder.FirstFailing | FastifyV2/src/modules/order/order.service.ts:40-50 | the position of the first item the pre-check rejects (absent product or too little stock), or the item count when none is rejected |
| PlaceOrder.CheckItems | FastifyV2/src/modules/order/order.service.ts:40-58 | on success one line per item, in order, each item passing the check (32-bit product id, product present, enough stock) with its product's current price |
| PlaceOrder.CheckItemsFailsAtFirst | FastifyV2/src/modules/order/order.service.ts:40-58 | the pre-check fails exactly when some item fails, and it reports the first failing item: checks run in item order |
| PlaceOrder.Total | FastifyV2/src/modules/order/order.service.ts:51-52 | the running total: the sum of price times quantity over the checked lines; TotalIsOrderValue states it over the request's items |
| PlaceOrder.TotalIsOrderValue | FastifyV2/src/modules/order/order.service.ts:51-52 | the running total equals the sum over the items of the product's price times the quantity |
| PlaceOrder.DecrementTakesOrdered | FastifyV2/src/modules/order/order.service.ts:86-93 | after the decrement loop each product's stock is its old stock minus everything ordered of it; no product is added or removed |
| PlaceOrder.OrderedOfDistinct | FastifyV2/src/modules/order/order.service.ts:86-93 | with distinct products, the amount taken from a product is its one line's quantity, or 0 when no line names it |
| PlaceOrder.Decrement | FastifyV2/src/modules/order/order.service.ts:86-93 | the stock loop adds and removes no product (what it takes from each is stated by DecrementTakesOrdered) |
| PlaceOrder.NextOrderIdIsFresh | FastifyV2/src/db/schema/order.schema.ts:7 | the next serial id belongs to no order and to no item |
| PlaceOrder.ItemRows | FastifyV2/src/modules/order/order.service.ts:73-78 | one order_items row per checked line, in line order, each with the new order's id, the product, the quantity and the price read during the check |
| PlaceOrder.Place | FastifyV2/src/modules/order/order.service.ts:29-99 | a successful placement names an existing user, has at least one item, takes the next serial id, which fits 32 bits, stores the order under it and advances only the order counter; users are unchanged |
| PlaceOrder.FreshOrderRowsInsertIff | FastifyV2/src/modules/order/order.service.ts:73-80 | for a fresh order id the item insert succeeds exactly when no product is repeated |
| PlaceOrder.PlaceOutcome | FastifyV2/src/modules/order/order.service.ts:29-99 | the outcome of createOrder: a user id outside 32 bits is a database error; 400 "User not found" for an unknown user; otherwise the error of the first item that fails the pre-check; otherwise an exhausted order sequence, then a total too wide for numeric(10, 2), then an empty item list (the query builder refuses an insert of no rows, order.service.ts:80), then a repeated product (duplicate key) fail; success exactly when none of these happens |
| PlaceOrder.PlaceCommitted | FastifyV2/src/modules/order/order.service.ts:61-98 | a committed placement passed the user check and the pre-check, got an id within 32 bits and fits the total column |
| PlaceOrder.PlaceStoresHeader | FastifyV2/src/modules/order/order.service.ts:63-70 | the new order has the next id, the user, the total (sum of price times quantity) and the given status (pending by default), and no other order changes |
| PlaceOrder.PlaceStoresItems | FastifyV2/src/modules/order/order.service.ts:73-80 | the new order's items are exactly one row per requested product, with its quantity and the price read during the pre-check, and other orders' items are untouched |
| PlaceOrder.PlaceTakesStock | FastifyV2/src/modules/order/order.service.ts:86-93 | each ordered product loses exactly its line's quantity, and every other product is unchanged |
| PlaceOrder.PlaceKeepsValid | FastifyV2/src/modules/order/order.service.ts:61-98 | a committed placement keeps every table constraint: unique e-mails, no negative stock, no orphan order or item, in-range columns |
| PlaceOrder.PlaceKeepsProducts | FastifyV2/src/modules/order/order.service.ts:86-93 | stock stays within 0..2^31 − 1 after the decrement, because the pre-check passed and no product is repeated |
| PlaceOrder.PlaceKeepsItems | FastifyV2/src/db/schema/orderItem.schema.ts:6-21 | every item row after a placement is stored under its own key, refers to an existing order and product, and fits its columns |
| PlaceOrder.PlaceKeepsUsersAndOrders | FastifyV2/src/db/schema/order.schema.ts:6-15 | users are unchanged and every order still refers to an existing user |
| PlaceOrder.LampShop | FastifyV2/src/db/schema/product.schema.ts:5-13 | a one-user, one-product database (stock 5) that satisfies every constraint |
| PlaceOrder.TwoLinesPassPreCheck | FastifyV2/src/modules/order/order.service.ts:40-58 | two lines of 3 of a product with stock 5 each pass the per-line pre-check |
| PlaceOrder.TwoLinesOverdraw | FastifyV2/src/modules/order/order.service.ts:86-93 | the unconditional decrement of those two lines would leave stock −1 |
| PlaceOrder.PreCheckAloneAllowsOverdraw | FastifyV2/src/db/schema/orderItem.schema.ts:18-20 | that order passes the pre-check and would overdraw, and the composite key of order_items rejects it, so nothing is written |
| Storage.Store.Snapshot | FastifyV2/src/db/schema/index.ts:1-4 | the store's tables read out as one value |
| Storage.Store.constructor | FastifyV2/src/db/schema/order.schema.ts:6-15 | a fresh store has empty tables, serials at 1, and satisfies every constraint |
| Storage.Store.Commit | FastifyV2/src/modules/order/order.service.ts:61 | a committed statement or transaction: the store's tables become the given ones |
| OrderRepository.UserOf | FastifyV2/src/modules/order/order.repository.ts:19 | the left join with users: present exactly when the user exists, with its id, e-mail and name and never the password hash |
| OrderRepository.FindById | FastifyV2/src/modules/order/order.repository.ts:32-63 | null exactly when no order has the id; otherwise the order, its user as the left join finds it, and its items (exactly the rows with that order_id), each with its product row when that exists and null otherwise |
| OrderRepository.FoundOrderIsJoined | FastifyV2/src/modules/order/order.repository.ts:43-56 | in a consistent database a found order always has its user and every item has its product |
| OrderRepository.Matches | FastifyV2/src/modules/order/order.repository.ts:22-27 | the condition the query keeps: the status when a status filter is given (the later where replaces the earlier), else the user id when a truthy one is given, else every order |
| OrderRepository.Select | FastifyV2/src/modules/order/order.repository.ts:9-27 | the filtered rows contain only orders matching the filter that applies (status when given, else user id), each with its user |
| OrderRepository.SelectIsComplete | FastifyV2/src/modules/order/order.repository.ts:22-27 | every scanned order that matches the filter is selected |
| OrderRepository.SelectKeepsScanOrder | FastifyV2/src/modules/order/order.repository.ts:22-29 | filtering a scan is filtering its parts one after the other: the rows come out in scan order |
| OrderRepository.SelectOne | FastifyV2/src/modules/order/order.repository.ts:22-27 | a single scanned order yields its joined row exactly when it matches the filter |
| OrderRepository.FindAll | FastifyV2/src/modules/order/order.repository.ts:8-30 | the LIMIT/OFFSET page of the filtered rows: its length is limit, what remains after offset, or 0, row i is filtered row offset + i, and each is an order matching the filter with its user |
| OrderRepository.FirstPageIsComplete | FastifyV2/src/modules/order/order.repository.ts:29 | when the matches fit in one page, offset 0 returns every matching order |
| OrderRepository.ColumnError | FastifyV2/src/db/schema/orderItem.schema.ts:15-16 | no error exactly when every row's quantity fits integer and its price fits numeric(10, 2) |
| OrderRepository.FirstOrphan | FastifyV2/src/db/schema/orderItem.schema.ts:9-14 | the first item row whose order or product does not exist, or the row count |
| OrderRepository.InsertItems | FastifyV2/src/modules/order/order.repository.ts:70-73 | no rows means no statement and no change; on success only order_items changes, gaining exactly the new rows and keeping the old ones |
| OrderRepository.InsertItemsSucceedsIff | FastifyV2/src/modules/order/order.repository.ts:70-73 | the insert succeeds exactly when the columns fit, no key is taken or repeated, and every row refers to an existing order and product |
| OrderRepository.InsertItemsKeepsValid | FastifyV2/src/modules/order/order.repository.ts:70-73 | a successful insert keeps every table constraint |
| OrderRepository.CreateOrderItems | FastifyV2/src/modules/order/order.repository.ts:70-73 | the store method: it returns the inserted rows and leaves exactly the tables InsertItems computes, or on failure changes nothing |
| OrderRepository.Updated | FastifyV2/src/modules/order/order.repository.ts:75-82 | an update changes the status only when one is given and always sets the update time; id, user, total and creation time stay |
| OrderRepository.UpdatedIsIdempotent | FastifyV2/src/modules/order/order.repository.ts:75-82 | applying the same update twice is applying it once |
| OrderRepository.UpdateKeepsValid | FastifyV2/src/modules/order/order.repository.ts:75-82 | a status update keeps every table constraint |
| OrderRepository.Update | FastifyV2/src/modules/order/order.repository.ts:75-82 | null exactly when no order has the id, with nothing changed; otherwise that one order is rewritten and returned |
| OrderRepository.Delete | FastifyV2/src/modules/order/order.repository.ts:84-88 | null exactly when no order has the id; otherwise the order and, by cascade, its items are removed and the order is returned |
| OrderService.GetOrder | FastifyV2/src/modules/order/order.service.ts:21-27 | an id outside 32 bits is a database error; 404 exactly when no order has the id; otherwise what findById returns |
| OrderService.CheckItemsFailureIsFinal | FastifyV2/src/modules/order/order.service.ts:40-50 | once a prefix of the items fails the pre-check, the whole check fails with the same error (the loop throws at once) |
| OrderService.PlacedOrderIsFound | FastifyV2/src/modules/order/order.service.ts:96-97 | reading back a placed order finds its header with the total and status, its user, one item per requested product with quantity and price, and each product with its new stock |
| OrderService.ValidateItems | FastifyV2/src/modules/order/order.service.ts:37-58 | the validation loop returns exactly the pre-check's verdict, and on success the running total of price times quantity |
| OrderService.TakeStock | FastifyV2/src/modules/order/order.service.ts:86-93 | the decrement loop leaves the products exactly as the decrement specification does |
| OrderService.CreateOrder | FastifyV2/src/modules/order/order.service.ts:29-99 | on failure the store is unchanged and the error is the one createOrder raises (including a user or product id outside 32 bits, an exhausted order sequence and an empty item list, whose transaction rolls back); on success the store holds the placed order and the reply is what findById reads back; the constraints are kept |
| OrderService.CreateOrderReplyAsWritten | FastifyV2/src/modules/order/order.service.ts:61-97 | createOrder's reply as written: the placement's error, or what findById reads on another pooled connection before the commit |
| OrderService.CreateOrderRepliesNull | FastifyV2/src/modules/order/order.service.ts:96-97 | for every placement that commits, that reply is null, although the committed order is found afterwards |
| OrderService.UpdateOrder | FastifyV2/src/modules/order/order.service.ts:101-114 | an id outside 32 bits is a database error and 404 when the order is absent, both with no change; otherwise only that order's status and update time change, and the reply is the re-read order |
| OrderService.DeleteOrder | FastifyV2/src/modules/order/order.service.ts:116-122 | an id outside 32 bits is a database error and 404 when the order is absent, both with no change; otherwise the order and its items go and the reply is "Order deleted successfully" |
| OrderRoutes.UserFilter | FastifyV2/src/modules/order/order.repository.ts:22-27 | the user-id condition survives exactly when a user id is given and no status is, and it is the given id |
| OrderRoutes.ListOrders | FastifyV2/src/modules/order/order.routes.simple.ts:14-32 | a bad query is refused with its error, and a user id outside 32 bits that the query compares is a database error; success exactly otherwise, and then the reply is findAll's page: at most 100 rows (10 by default), each an order with the requested status, or with the requested user when no status is given |
| OrderRoutes.GetOrder | FastifyV2/src/modules/order/order.routes.simple.ts:35-64 | 400 for an id that is not a positive integer; otherwise exactly the service's getOrderById answer |
| OrderRoutes.PostOrder | FastifyV2/src/modules/order/order.routes.simple.ts:67-141 | a body the schema refuses is a 400 with the schema's error and changes nothing; otherwise the outcome and tables of createOrder's workflow, and the reply is the order read back after the commit |
| OrderRoutes.PutOrder | FastifyV2/src/modules/order/order.routes.simple.ts:144-179 | a bad id or body changes nothing; an id outside 32 bits is a database error and an absent order a 404, with nothing changed; success exactly when the order exists, and then only its status and update time change and the reply is what findById reads back |
| OrderRoutes.DeleteOrder | FastifyV2/src/modules/order/order.routes.simple.ts:182-191 | 400 for a bad id; otherwise the service's deleteOrder outcome: a database error for an id outside 32 bits, 404 for an absent order, both with no change, or the order and its items gone |
| ProductSchema.DotIndex | FastifyV2/src/modules/product/product.schema.ts:6 | the position of the first '.' in the price text, or its length when there is none |
| ProductSchema.PriceFormat | FastifyV2/src/modules/product/product.schema.ts:6 | the regular expression ^\d+(\.\d{1,2})?$ written out: digits, then optionally a point and one or two digits; ParsePriceAcceptsFormat proves the price parser accepts exactly these texts |
| ProductSchema.ParsePrice | FastifyV2/src/modules/product/product.schema.ts:6 | a digit string is that many whole units in cents; a text that is empty or does not start with a digit is refused |
| ProductSchema.ParsePriceAcceptsFormat | FastifyV2/src/modules/product/product.schema.ts:6 | the price parser accepts exactly the texts matching ^\d+(\.\d{1,2})?$ |
| ProductSchema.FormatCents | FastifyV2/src/modules/order/order.service.ts:67 | toFixed(2) of an amount in cents always matches the price format |
| ProductSchema.FormatCentsRoundTrip | FastifyV2/src/modules/order/order.service.ts:67 | a price written with two decimals parses back to the same number of cents |
| ProductSchema.DotOfDigits | FastifyV2/src/modules/product/product.schema.ts:6 | in digits, a dot, then a fraction, the first dot comes right after the digits |
| ProductSchema.ParsePriceOfParts | FastifyV2/src/modules/product/product.schema.ts:6 | digits, a point and one or two digits read as the whole units in cents plus the cents the fraction stands for |
| ProductSchema.PriceExamples | FastifyV2/src/modules/product/product.schema.ts:6 | "10", "10.5" and "10.55" are 1000, 1050 and 1055 cents |
| ProductSchema.PriceCounterexamples | FastifyV2/src/modules/product/product.schema.ts:6 | "10.", ".5", "1.234" and "-1" are refused |
| ProductSchema.ParseCreateProduct | FastifyV2/src/modules/product/product.schema.ts:3-8 | accepted exactly when the name is 1..255 characters, the price matches the format and the stock is absent or non-negative; stock defaults to 0 |
| ProductSchema.ParseUpdateProduct | FastifyV2/src/modules/product/product.schema.ts:10-15 | every field optional; accepted exactly when each given field meets the create rule, and a field is present in the input exactly when given |
| ProductService.ListProducts | FastifyV2/src/modules/product/product.service.ts:13-15 | the LIMIT/OFFSET page of the products in scan order: its length is limit, what remains after offset, or 0, and product i is the one scanned at offset + i |
| ProductService.GetProduct | FastifyV2/src/modules/product/product.service.ts:17-23 | an id outside 32 bits is a database error; 404 exactly when the product is absent; otherwise that product |
| ProductService.ColumnError | FastifyV2/src/db/schema/product.schema.ts:9-10 | no error exactly when the price fits numeric(10, 2) and the stock fits integer; a stock outside 32 bits is reported first, since it is refused when the parameters are bound |
| ProductService.InsertProduct | FastifyV2/src/modules/product/product.service.ts:25-33 | fails exactly when the product sequence is exhausted or a column overflows: a stock outside 32 bits first (parameter binding), then the exhausted sequence, then the price; otherwise one new product with the next id and the given fields, and no other table changes |
| ProductService.InsertProductKeepsValid | FastifyV2/src/modules/product/product.service.ts:25-33 | the new product's id was free, the constraints are kept and the product reads back as written |
| ProductService.Updated | FastifyV2/src/modules/product/product.repository.ts:22-29 | the given fields replace the stored ones, the others stay, and the update time is set |
| ProductService.EmptyUpdateTouchesOnlyTime | FastifyV2/src/modules/product/product.repository.ts:25 | an update with no fields changes only the update time |
| ProductService.UpdateProductRows | FastifyV2/src/modules/product/product.service.ts:35-46 | an id outside 32 bits is a database error; 404 for an absent product; otherwise the merged row, unless a column overflows |
| ProductService.UpdateProductKeepsValid | FastifyV2/src/modules/product/product.service.ts:35-46 | an update changes that one product only and keeps the constraints |
| ProductService.DeleteProductOutcome | FastifyV2/src/modules/product/product.service.ts:48-54 | an id outside 32 bits is a database error; 404 for an absent product; otherwise the delete with ON DELETE RESTRICT |
| ProductService.CreateProduct | FastifyV2/src/modules/product/product.service.ts:25-33 | the store method: the new product is returned and stored, or on failure nothing changes; constraints kept |
| ProductService.UpdateProduct | FastifyV2/src/modules/product/product.service.ts:35-46 | the store method for the update, with the same outcome and tables as its specification |
| ProductService.DeleteProduct | FastifyV2/src/modules/product/product.service.ts:48-54 | the store method: "Product deleted successfully" and the product gone, or the error and no change |
| ProductRoutes.ListProductsRoute | FastifyV2/src/modules/product/product.routes.simple.ts:14-19 | success exactly when limit and offset parse, and a bad limit is reported as such; the reply is the service's page, at most 100 rows (10 by default) |
| ProductRoutes.GetProductRoute | FastifyV2/src/modules/product/product.routes.simple.ts:22-31 | 400 for a bad id; otherwise exactly the service's getProductById answer |
| ProductRoutes.PostProduct | FastifyV2/src/modules/product/product.routes.simple.ts:34-47 | a body the schema refuses is a 400 with its error and changes nothing; otherwise the outcome and tables of the service's insert, with stock 0 when none is given |
| ProductRoutes.UpdateStatement | FastifyV2/src/modules/product/product.routes.simple.ts:58-64 | the route's single UPDATE ... RETURNING: a stock outside 32 bits is refused at binding even when no row has the id; otherwise it agrees with the service's update (id outside 32 bits, 404 when no row is returned, column overflow, else the merged row); success exactly when the product exists and the merged row fits |
| ProductRoutes.UpdateStatementVersusService | FastifyV2/src/modules/product/product.routes.simple.ts:58-65 | the route's statement and the service's read-then-update agree on every existing product; for an absent id with a stock outside 32 bits the route fails at binding where the service replies 404 |
| ProductRoutes.PutProduct | FastifyV2/src/modules/product/product.routes.simple.ts:50-67 | a bad id or body is a 400 and changes nothing; otherwise the outcome and tables of the route's single UPDATE (UpdateStatement) |
| ProductRoutes.DeleteProductRoute | FastifyV2/src/modules/product/product.routes.simple.ts:70-79 | 400 for a bad id; otherwise the outcome and tables of the service's delete, replying "Product deleted successfully" |
| UserSchema.ParseRole | FastifyV2/src/modules/user/user.schema.ts:7 | accepts exactly "customer" and "admin" |
| UserSchema.RoleNamesRoundTrip | FastifyV2/src/modules/user/user.schema.ts:7 | every role's name parses back to that role |
| UserSchema.ParseCreateUser | FastifyV2/src/modules/user/user.schema.ts:3-8 | accepted exactly when the e-mail has the address shape, the password has at least 8 characters, the name is 1..255 characters and the role is absent or valid; role defaults to customer |
| UserSchema.ParseUpdateUser | FastifyV2/src/modules/user/user.schema.ts:10-14 | every field optional; accepted exactly when each given field meets the create rule |
| UserService.WithoutPassword | FastifyV2/src/modules/user/user.service.ts:22-24 | the public view keeps every column except the password hash |
| UserService.WithoutPasswordIgnoresHash | FastifyV2/src/modules/user/user.service.ts:23 | the public view does not depend on the password hash |
| UserService.ListUsers | FastifyV2/src/modules/user/user.service.ts:13-15 | the LIMIT/OFFSET page of whole user rows in scan order (findAll selects every column): its length is limit, what remains after offset, or 0, and user i is the one scanned at offset + i |
| UserService.GetUser | FastifyV2/src/modules/user/user.service.ts:17-25 | an id outside 32 bits is a database error; 404 exactly when the user is absent; otherwise the user without the hash |
| UserService.InsertUser | FastifyV2/src/modules/user/user.service.ts:27-48 | "Email already exists" when any user has the e-mail; then an exhausted user sequence fails; success exactly when the e-mail is free, the sequence is not exhausted and the e-mail fits varchar(255); the stored hash is "hashed_" followed by the password |
| UserService.InsertUserKeepsValid | FastifyV2/src/modules/user/user.service.ts:27-48 | the new id was free, e-mails stay unique and the constraints are kept |
| UserService.Updated | FastifyV2/src/modules/user/user.repository.ts:27-34 | the given fields replace the stored ones, the hash stays, and the update time is set |
| UserService.UpdateUserRows | FastifyV2/src/modules/user/user.service.ts:50-72 | an id outside 32 bits is a database error; 404 for an absent user; "Email already exists" exactly when the e-mail changes to one that is taken; success exactly when the user exists, there is no such conflict and the e-mail fits; then the merged row |
| UserService.OwnEmailIsNoConflict | FastifyV2/src/modules/user/user.service.ts:57 | re-submitting one's own e-mail never causes a conflict |
| UserService.UpdateUserKeepsValid | FastifyV2/src/modules/user/user.service.ts:50-72 | an update keeps e-mails unique and touches only that user |
| UserService.DeleteUserOutcome | FastifyV2/src/modules/user/user.service.ts:74-80 | an id outside 32 bits is a database error; 404 for an absent user; otherwise the user goes with their orders and items by cascade |
| UserService.CreateUser | FastifyV2/src/modules/user/user.service.ts:27-48 | the store method: the new user is returned without the hash and stored, or on failure nothing changes |
| UserService.UpdateUser | FastifyV2/src/modules/user/user.service.ts:50-72 | the store method for the update, returning the user without the hash |
| UserService.DeleteUser | FastifyV2/src/modules/user/user.service.ts:74-80 | the store method: "User deleted successfully" and the cascade, or 404 and no change |
| UserRoutes.ListUsersRoute | FastifyV2/src/modules/user/user.routes.simple.ts:14-22 | success exactly when limit and offset parse, and a bad limit is reported as such; at most 100 users, each the service's row at that position without the hash |
| UserRoutes.GetUserRoute | FastifyV2/src/modules/user/user.routes.simple.ts:25-35 | 400 for a bad id; otherwise exactly the service's getUserById answer |
| UserRoutes.PostUser | FastifyV2/src/modules/user/user.routes.simple.ts:38-59 | a refused body is a 400 with its error and changes nothing; otherwise the outcome and tables of the service's insert, the user returned without the hash |
| UserRoutes.PutUser | FastifyV2/src/modules/user/user.routes.simple.ts:62-89 | a bad id or body is a 400 and changes nothing; otherwise the outcome and tables of the service's update, the user returned without the hash |
| UserRoutes.DeleteUserRoute | FastifyV2/src/modules/user/user.routes.simple.ts:92-101 | 400 for a bad id; otherwise the outcome and tables of the service's delete, replying "User deleted successfully" |
| LegacyTables.Empty | Fastify/src/db/schema.js:10-35 | the empty SQLite database is consistent |
| LegacyTables.Consistent | Fastify/src/db/schema.js:10-35 | every row is stored under its own id, the autoincrement counters are past every id in use, and every order's user and product exist |
| LegacyTables.ParseRowId | Fastify/src/routes/orders.js:49-52 | the id is parseInt's value, and 400 exactly when that is NaN |
| LegacyTables.ParseRowIdOfDigits | Fastify/src/routes/orders.js:49-52 | an id's decimal spelling reads back as that id, also with a non-digit suffix after it |
| LegacyTables.ParseRowIdRefusesNonNumber | Fastify/src/routes/orders.js:49-52 | a parameter with no digit after white space and sign is a 400 |
| LegacyTables.Store.Snapshot | Fastify/src/db/schema.js:10-35 | the store's tables read out as one value |
| LegacyTables.Store.constructor | Fastify/src/db/schema.js:10-35 | a fresh store is empty and consistent |
| LegacyTables.Store.Commit | Fastify/src/routes/orders.js:105-108 | a committed statement: the store's tables become the given ones |
| LegacyOrders.ParseNewOrder | Fastify/src/routes/orders.js:6-10 | accepted exactly when user id, product id and quantity are all given and positive, and then they are kept |
| LegacyOrders.ParseOrderChanges | Fastify/src/routes/orders.js:12-16 | accepted exactly when each given field is positive; a field is present exactly when given |
| LegacyOrders.View | Fastify/src/routes/orders.js:21-42 | the two left joins: the user and the product are present exactly when they exist, with the selected columns |
| LegacyOrders.ListOrders | Fastify/src/routes/orders.js:20-44 | one joined row per order, in scan order, as many rows as orders |
| LegacyOrders.ScanCoversTable | Fastify/src/routes/orders.js:40-42 | a scan lists exactly as many ids as the table has rows |
| LegacyOrders.ListOrdersIsComplete | Fastify/src/routes/orders.js:20-44 | every order appears in the listing |
| LegacyOrders.GetOrder | Fastify/src/routes/orders.js:47-81 | 400 for an id that is not a number, 404 for no such order, otherwise the joined order |
| LegacyOrders.CreateOrderRow | Fastify/src/routes/orders.js:84-113 | success exactly when the body is valid and the user and product exist; "User not found" before "Product not found", both 400 with no write; the inserted row is exactly (next id, user, product, quantity), with no stock check and no price |
| LegacyOrders.CreateOrderKeepsConsistent | Fastify/src/routes/orders.js:105-109 | the new order's id was free, it refers to an existing user and product, the tables stay consistent and GET finds it |
| LegacyOrders.Changed | Fastify/src/routes/orders.js:144-148 | the given fields replace the stored ones, the others stay |
| LegacyOrders.ChangedIsIdempotent | Fastify/src/routes/orders.js:144-148 | applying the same changes twice is applying them once, and no changes keep the row |
| LegacyOrders.UpdateOrderRow | Fastify/src/routes/orders.js:116-156 | 400 for a bad id or body; a user or product is looked up only when given, and 400 when it does not exist; 404 for no such order; otherwise only the given fields change |
| LegacyOrders.UpdateOrderKeepsConsistent | Fastify/src/routes/orders.js:124-152 | an update rewrites one order, keeps the rest and the tables consistent, and a user or product it names exists |
| LegacyOrders.DeleteOrderRow | Fastify/src/routes/orders.js:159-173 | 400 for a bad id, 404 for no such order, otherwise that row alone goes |
| LegacyOrders.DeletedOrderIsGone | Fastify/src/routes/orders.js:159-173 | after a delete the tables are consistent and GET of that id is a 404 |
| LegacyOrders.PostOrder | Fastify/src/routes/orders.js:84-113 | the store method: the outcome and tables of CreateOrderRow; on failure nothing changes |
| LegacyOrders.PutOrder | Fastify/src/routes/orders.js:116-156 | the store method: the outcome and tables of UpdateOrderRow |
| LegacyOrders.DeleteOrder | Fastify/src/routes/orders.js:159-173 | the store method: 204 with the row gone, or the error with no change |
| LegacyProducts.ParseNewProduct | Fastify/src/routes/products.js:6-10 | accepted exactly when the name is non-empty and the price matches ^\d+(\.\d{1,2})?$; the price is kept as its cents |
| LegacyProducts.ParseProductChanges | Fastify/src/routes/products.js:12-19 | every field optional; accepted exactly when a given name is non-empty and a given price matches the format |
| LegacyProducts.PriceRoundTrip | Fastify/src/routes/products.js:8 | a price written with two decimals is accepted and reads back as the same cents |
| LegacyProducts.ListProducts | Fastify/src/routes/products.js:23-26 | every product, in scan order, each appearing |
| LegacyProducts.GetProduct | Fastify/src/routes/products.js:29-44 | 400 for an id that is not a number, 404 for no such product, otherwise the product |
| LegacyProducts.CreateProductRow | Fastify/src/routes/products.js:47-58 | a refused body is a 400 with no write; otherwise one row with the next id and the request's fields |
| LegacyProducts.CreateProductKeepsConsistent | Fastify/src/routes/products.js:50-54 | the new id was free, the tables stay consistent and GET finds the product |
| LegacyProducts.Changed | Fastify/src/routes/products.js:69-73 | the given fields replace the stored ones, the others stay |
| LegacyProducts.ChangedIsIdempotent | Fastify/src/routes/products.js:69-73 | applying the same changes twice is applying them once |
| LegacyProducts.UpdateProductRow | Fastify/src/routes/products.js:61-81 | 400 for a bad id or body, 404 for no such product, otherwise only the given fields change |
| LegacyProducts.UpdateProductKeepsConsistent | Fastify/src/routes/products.js:61-81 | an update rewrites one product, leaves every other row alone and keeps the tables consistent |
| LegacyProducts.DeleteProductRow | Fastify/src/routes/products.js:84-98 | 400 for a bad id, 404 for no such product; a product some order refers to is refused by the reference of orders.product_id; success exactly otherwise, and then that row alone goes |
| LegacyProducts.DeletedProductIsGone | Fastify/src/routes/products.js:84-98 | after a delete the tables are consistent and GET of that id is a 404 |
| LegacyProducts.PostProduct | Fastify/src/routes/products.js:47-58 | the store method: the outcome and tables of CreateProductRow |
| LegacyProducts.PutProduct | Fastify/src/routes/products.js:61-81 | the store method: the outcome and tables of UpdateProductRow |
| LegacyProducts.DeleteProduct | Fastify/src/routes/products.js:84-98 | the store method: 204 with the row gone, or the error with no change |
| Handlebars.UpperChar | helpers/handlebars.js:4 | lower-case ASCII letters become their capitals; every other character stays |
| Handlebars.Capitalize | helpers/handlebars.js:3-5 | the same length; the empty string stays empty; the first character upper-cased and the rest unchanged |
| Handlebars.CapitalizeIsIdempotent | helpers/handlebars.js:3-5 | the result never starts with a lower-case letter, and capitalizing twice is capitalizing once |
| Handlebars.CapitalizeChangesOnlyALowerFirst | helpers/handlebars.js:3-5 | the string is unchanged exactly when it is empty or does not start with a lower-case letter; characters after the first never change |

## Left out

- Request validation: the routes pass the zod schemas to Fastify as `schema`, and no zod validator compiler or type provider is registered (server.simple.ts:9-26, app.simple.ts). The model assumes the schemas are enforced as written: every `Params`, `OrderSchema`, `ProductSchema` and `UserSchema` parser, and every route contract built on them, states zod's behaviour (`Number()` coercion, defaults) and not what Fastify's default validator would do with a zod object.
- Transport: HTTP, Fastify plugins, controllers, route registration and response schemas are left out. Status codes are error variants; a reply body is the returned value.
- Time: timestamps are an integer `now` supplied by the caller, in place of `new Date()` and the database's `defaultNow()` and `current_timestamp`.
- Floating point: `parseFloat`, `toFixed(2)` and SQLite's `real` price are exact integer cents here, with no IEEE rounding.
- Concurrency: the pre-check reads happen outside the transaction, so two concurrent orders can both pass it and overdraw. Only single calls are modelled.
- Scan order: SQL without ORDER BY has no defined row order. The order in which the database returns rows is the parameter `scan`.
- Serial ids burnt by a failed insert are not modelled: a failed statement leaves the counters as they were.
- OrderService.CreateOrder: createOrder reads the order back through the repository, which holds the pool rather than the transaction, while the transaction is still open (order.service.ts:96). That read runs on another connection and cannot see the uncommitted rows, so the service replies null. The model replies with the committed order, as the POST route does after its commit; the reply as written is kept in `OrderService.CreateOrderReplyAsWritten` (see "Findings").
- OrderService.UpdateOrder: the second 404 (order.service.ts:108-110) can only happen when another request deletes the order between the two statements. In a sequential model it cannot happen, so it is not a separate branch.
- OrderRepository.Select: when both filters are given, the query builder replaces the user-id condition with the status condition (`OrderRoutes.UserFilter`). The rows then match the status only, and nothing is claimed about their user.
- OrderRepository.FindById, OrderRepository.Update, OrderRepository.Delete and OrderRepository.FindAll take ids as given. The services and routes refuse an id outside 32 bits before they call them, as the database does when it compares the id.
- Params.ParseOffset: PostgreSQL refuses an OFFSET beyond the bigint range; the model accepts any digit string as the offset.
- PlaceOrder.Place: an empty item list fails after the order row's INSERT and rolls it back; the order sequence value that INSERT drew is not modelled as burnt (see "Serial ids" above).
- PlaceOrder.Place: when the order sequence is exhausted and the total overflows at once, the model reports the exhausted sequence; which error the database raises first depends on the order in which it evaluates the row.
- ProductRoutes.PostProduct: `body.stock || 0` (product.routes.simple.ts:43) adds nothing after the schema's default of 0.
- UserSchema.ParseCreateUser: zod's e-mail regex is reduced to `EmailShape`: no space and exactly one '@' with text on both sides.
- Params.ParseId, Params.ParseLimit, Params.ParseOffset and OrderSchema.ParseListOrdersQuery (its user id): `Number(text)` is modelled for plain decimal digit strings and the empty string. Other spellings that `Number` accepts (white space, signs, exponents, hexadecimal) are refused here. The value is taken exactly: `Number` rounds digit strings above 2^53 to the nearest double (which `.int()` still accepts, as a different integer) and gives Infinity beyond about 1.8e308 (which `.int()` refuses with a 400); the model reads the exact integer in both cases.
- Numbers.DecimalNumber: the exact value of the digits, with no double rounding above 2^53 and no Infinity for very long digit strings (see the line above).
- LegacyTables.ParseRowId: the value is exact; `parseInt` loses precision above 2^53, which the model does not reproduce.
- Numbers.ParseInt: white space follows JavaScript's definition, except the Unicode space separators beyond no-break space.
- Handlebars.UpperChar: only ASCII letters are upper-cased. `toUpperCase` maps other letters too, some to two characters, so the length claim holds for ASCII input only.
- The `obj` helper (`JSON.stringify`) is not part of this model.
- LegacyOrders.UpdateOrderRow and LegacyProducts.UpdateProductRow: a body that sets no field is taken as a 400, because the query builder refuses an empty SET clause and the handler turns that error into a 400.
- LegacyTables.Consistent: the references of orders.user_id and orders.product_id are taken as enforced. The legacy users routes, which could delete a referenced user, are not part of this model.
- The legacy users routes (Fastify/src/routes/users.js) are not part of this model. The legacy user table is read only by the order routes' existence checks.
- Order items: the database has no check on the item quantity, so the table invariant bounds it by the integer column range only.
- UserSchema.ParseCreateUser, UserSchema.ParseUpdateUser: string lengths are counted in characters of `seq<char>`; zod counts UTF-16 code units, so the two differ for characters outside the Basic Multilingual Plane.
- ProductSchema.ParseCreateProduct, ProductSchema.ParseUpdateProduct: the name length is counted in characters as above, and a JSON stock that is not an integer (a fraction, a string) cannot be written in the body type, whose stock is an integer.
- OrderSchema.ParseCreateOrder: bodies JSON can express but its body type cannot (a missing items field, a quantity given as a string or a fraction) are not modelled; the schema's checks on the values that can be expressed are.
- OrderRepository.FindById: the items of an order are a map keyed by product id, not the array the query returns; the order of the item rows is not modelled.

## Findings

| source | as written | input that shows it | evidently intended | confidence | as-written member | corrected member |
|---|---|---|---|---|---|---|
| FastifyV2/src/modules/order/order.service.ts:96-97 | findById runs through the pool handle inside the open transaction, so it cannot see the new order and createOrder returns null (replied as 201 with null) | any order that passes every check, such as one lamp from a shop that stocks it | the placed order with its user and items, as the POST route reads it back after the commit | not executed; follows from PostgreSQL's read-committed isolation between pooled connections | OrderService.CreateOrderReplyAsWritten, OrderService.CreateOrderRepliesNull | OrderService.CreateOrder |
