/** The four tables as one value, the constraints their definitions declare
    (keys, unique e-mail, foreign keys with their delete rules) stated as an
    invariant, and the deletes whose effect the foreign keys decide. */
module Tables {
  import opened Wrappers
  import opened Rows

  datatype Db = Db(
    users: map<int, User>,
    products: map<int, Product>,
    orders: map<int, Order>,
    items: map<ItemKey, OrderItem>,
    nextUserId: int,
    nextProductId: int,
    nextOrderId: int)

  /** The tables after a statement that wrote one row, and that row as the
      statement returns it. */
  datatype Written<T> = Written(db: Db, row: T)

  /** `scan` is the order in which the database hands out a table whose key is a
      serial id: every row exactly once. SQL fixes no order, so the model takes
      it as a parameter. */
  predicate IsScan<T>(table: map<int, T>, scan: seq<int>) {
    && (forall i :: 0 <= i < |scan| ==> scan[i] in table)
    && (forall id :: id in table ==> id in scan)
    && (forall i, j :: 0 <= i < j < |scan| ==> scan[i] != scan[j])
  }

  /** The rows of `table` in scan order. */
  function RowsInScan<T>(table: map<int, T>, scan: seq<int>): (r: seq<T>)
    requires forall i :: 0 <= i < |scan| ==> scan[i] in table
    ensures |r| == |scan| && forall i :: 0 <= i < |scan| ==> r[i] == table[scan[i]]
  {
    seq(|scan|, i requires 0 <= i < |scan| => table[scan[i]])
  }

  /** No two users share an e-mail address (the unique constraint on users.email). */
  predicate UniqueEmails(users: map<int, User>) {
    forall a, b :: a in users && b in users && users[a].email == users[b].email ==> a == b
  }

  /** users: the serial id matches the key and is below the next one to hand out;
      a serial sequence never hands out more than the integer column holds. */
  ghost predicate UsersOk(db: Db) {
    && 1 <= db.nextUserId <= MaxInt32 + 1
    && (forall id :: id in db.users ==> db.users[id].id == id && 0 < id < db.nextUserId)
    && UniqueEmails(db.users)
  }

  /** A product row fits its columns, and (what the model proves is kept) its
      stock is not negative. */
  predicate ProductRowOk(p: Product) {
    0 <= p.stock <= MaxInt32 && p.price < NumericLimit
  }

  ghost predicate ProductsOk(db: Db) {
    && 1 <= db.nextProductId <= MaxInt32 + 1
    && forall id :: id in db.products ==>
         db.products[id].id == id && 0 < id < db.nextProductId && ProductRowOk(db.products[id])
  }

  /** orders: every order belongs to an existing user and its total fits numeric(10, 2). */
  ghost predicate OrdersOk(db: Db) {
    && 1 <= db.nextOrderId <= MaxInt32 + 1
    && forall id :: id in db.orders ==>
         && db.orders[id].id == id && 0 < id < db.nextOrderId
         && db.orders[id].userId in db.users
         && db.orders[id].totalAmount < NumericLimit
  }

  /** order_items: the row matches its key, its order and its product exist (no
      orphan items), and its quantity and price fit their columns. */
  ghost predicate ItemsOk(db: Db) {
    forall k :: k in db.items ==>
      && db.items[k].orderId == k.0 && db.items[k].productId == k.1
      && k.0 in db.orders && k.1 in db.products
      && Int32(db.items[k].quantity) && db.items[k].priceAtPurchase < NumericLimit
  }

  ghost predicate Valid(db: Db) {
    UsersOk(db) && ProductsOk(db) && OrdersOk(db) && ItemsOk(db)
  }

  function Empty(): (db: Db)
    ensures Valid(db)
  {
    Db(map[], map[], map[], map[], 1, 1, 1)
  }

  /** Whether some user holds `email` (the repository's findByEmail finds a row). */
  predicate EmailTaken(users: map<int, User>, email: string) {
    exists id :: id in users && users[id].email == email
  }

  /** The items left when the orders in `gone` are deleted (ON DELETE CASCADE on
      order_items.order_id). */
  function ItemsWithout(items: map<ItemKey, OrderItem>, gone: set<int>): map<ItemKey, OrderItem> {
    map k | k in items && k.0 !in gone :: items[k]
  }

  /** Deleting an order deletes its items with it; nothing else changes, and the
      stock the order took is not given back. */
  function DeleteOrderRows(db: Db, id: int): (r: Db)
    ensures r.orders.Keys == db.orders.Keys - {id}
    ensures forall k :: k in r.items <==> k in db.items && k.0 != id
    ensures forall o :: o in r.orders ==> r.orders[o] == db.orders[o]
    ensures forall k :: k in r.items ==> r.items[k] == db.items[k]
    ensures r.users == db.users && r.products == db.products
    ensures r.nextUserId == db.nextUserId && r.nextProductId == db.nextProductId && r.nextOrderId == db.nextOrderId
  {
    db.(orders := db.orders - {id}, items := ItemsWithout(db.items, {id}))
  }

  /** Deleting a user deletes that user's orders (ON DELETE CASCADE on
      orders.user_id) and, through order_items, their items. */
  function DeleteUserRows(db: Db, id: int): (r: Db)
    ensures r.users.Keys == db.users.Keys - {id}
    ensures forall o :: o in r.orders <==> o in db.orders && db.orders[o].userId != id
    ensures forall k :: k in r.items <==>
      k in db.items && (k.0 in db.orders ==> db.orders[k.0].userId != id)
    ensures forall o :: o in r.orders ==> r.orders[o] == db.orders[o]
    ensures forall k :: k in r.items ==> r.items[k] == db.items[k]
    ensures forall u :: u in r.users ==> r.users[u] == db.users[u]
    ensures r.products == db.products
    ensures r.nextUserId == db.nextUserId && r.nextProductId == db.nextProductId && r.nextOrderId == db.nextOrderId
  {
    var gone := set o | o in db.orders && db.orders[o].userId == id;
    db.(users := db.users - {id},
        orders := map o | o in db.orders && o !in gone :: db.orders[o],
        items := ItemsWithout(db.items, gone))
  }

  /** Whether some order item refers to product `id`. */
  predicate ProductInUse(db: Db, id: int) {
    exists k :: k in db.items && k.1 == id
  }

  /** Deleting a product that an order item refers to is refused (ON DELETE
      RESTRICT on order_items.product_id); otherwise only the product goes. */
  function DeleteProductRows(db: Db, id: int): (r: Result<Db>)
    ensures r.Failure? <==> ProductInUse(db, id)
    ensures r.Failure? ==> r.error == ForeignKeyViolation(ProductRow, id)
    ensures r.Success? ==> r.value == db.(products := db.products - {id})
  {
    if ProductInUse(db, id) then Failure(ForeignKeyViolation(ProductRow, id))
    else Success(db.(products := db.products - {id}))
  }

  lemma DeleteOrderKeepsValid(db: Db, id: int)
    requires Valid(db)
    ensures Valid(DeleteOrderRows(db, id))
  {
  }

  lemma DeleteUserKeepsValid(db: Db, id: int)
    requires Valid(db)
    ensures Valid(DeleteUserRows(db, id))
  {
  }

  lemma DeleteProductKeepsValid(db: Db, id: int)
    requires Valid(db)
    requires DeleteProductRows(db, id).Success?
    ensures Valid(DeleteProductRows(db, id).value)
  {
    var r := DeleteProductRows(db, id).value;
    forall k | k in r.items
      ensures k.1 in r.products
    {
      assert k in db.items;
      assert k.1 != id;
    }
  }
  // ---------------------------------------------------------------------------
  // Inserting into order_items, keyed by (order_id, product_id)

  function KeyOf(row: OrderItem): ItemKey {
    (row.orderId, row.productId)
  }

  function KeysOf(rows: seq<OrderItem>): set<ItemKey> {
    set i | 0 <= i < |rows| :: KeyOf(rows[i])
  }

  predicate NoRepeatedKey(rows: seq<OrderItem>) {
    forall i, j :: 0 <= i < j < |rows| ==> KeyOf(rows[i]) != KeyOf(rows[j])
  }

  /** One multi-row INSERT into order_items: it is refused at the first row whose
      (order_id, product_id) is already taken, by the table or by an earlier row
      of the same statement; otherwise every row is added and no other row
      changes. */
  function InsertRows(table: map<ItemKey, OrderItem>, rows: seq<OrderItem>): (r: Result<map<ItemKey, OrderItem>>)
    ensures r.Success? ==> r.value.Keys == table.Keys + KeysOf(rows)
    ensures r.Success? ==> forall k :: k in table ==> r.value[k] == table[k]
    ensures r.Success? ==> forall i :: 0 <= i < |rows| ==> r.value[KeyOf(rows[i])] == rows[i]
    decreases |rows|
  {
    if rows == [] then Success(table)
    else
      var front := rows[..|rows| - 1];
      match InsertRows(table, front)
      case Failure(e) => Failure(e)
      case Success(t) =>
        var row := rows[|rows| - 1];
        KeysOfSnoc(rows);
        if KeyOf(row) in t then Failure(DuplicateKey(row.orderId, row.productId))
        else Success(t[KeyOf(row) := row])
  }

  lemma KeysOfSnoc(rows: seq<OrderItem>)
    requires rows != []
    ensures KeysOf(rows) == KeysOf(rows[..|rows| - 1]) + {KeyOf(rows[|rows| - 1])}
    ensures forall i :: 0 <= i < |rows| - 1 ==> KeyOf(rows[i]) in KeysOf(rows[..|rows| - 1])
    ensures NoRepeatedKey(rows) <==>
      NoRepeatedKey(rows[..|rows| - 1]) && KeyOf(rows[|rows| - 1]) !in KeysOf(rows[..|rows| - 1])
  {
    var front := rows[..|rows| - 1];
    assert forall i :: 0 <= i < |front| ==> front[i] == rows[i];
    forall i | 0 <= i < |front|
      ensures KeyOf(rows[i]) in KeysOf(front)
    {
      assert KeyOf(front[i]) in KeysOf(front);
    }
    assert KeyOf(rows[|rows| - 1]) in KeysOf(rows);
  }

  /** The multi-row insert goes through exactly when no key repeats, neither
      against the table nor inside the statement. */
  lemma {:induction false} InsertRowsSucceedsIff(table: map<ItemKey, OrderItem>, rows: seq<OrderItem>)
    ensures InsertRows(table, rows).Success? <==> table.Keys !! KeysOf(rows) && NoRepeatedKey(rows)
    decreases |rows|
  {
    if rows != [] {
      InsertRowsSucceedsIff(table, rows[..|rows| - 1]);
      KeysOfSnoc(rows);
    }
  }

  /** The only way the insert is refused is a key already taken. */
  lemma {:induction false} InsertRowsRefusesDuplicate(table: map<ItemKey, OrderItem>, rows: seq<OrderItem>)
    ensures InsertRows(table, rows).Failure? ==> InsertRows(table, rows).error.DuplicateKey?
    decreases |rows|
  {
    if rows != [] {
      InsertRowsRefusesDuplicate(table, rows[..|rows| - 1]);
    }
  }

}
