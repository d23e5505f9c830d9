/** The order repository: the two reads (one order with its user and items, a
    filtered page of orders with their users) as functions of the tables, and
    the writes (insert item rows, set an order's status, delete an order) as
    methods on the store, each stated as the tables it leaves behind. */
module OrderRepository {
  import opened Wrappers
  import opened Rows
  import opened Tables
  import opened Storage
  import Params

  /** The user columns the order queries select: never the password hash. */
  datatype UserSummary = UserSummary(id: int, email: string, name: string)

  /** An order item with its product, when the left join finds one. */
  datatype ItemDetail = ItemDetail(item: OrderItem, product: Option<Product>)

  /** `findById`'s answer: the order, its user, and its items keyed by product id
      (an order has at most one item per product). */
  datatype OrderDetail = OrderDetail(order: Order, user: Option<UserSummary>, items: map<int, ItemDetail>)

  /** One row of `findAll`: the order and its user. */
  datatype OrderListRow = OrderListRow(order: Order, user: Option<UserSummary>)

  /** The left join of an order with users on orders.user_id. */
  function UserOf(users: map<int, User>, userId: int): (r: Option<UserSummary>)
    ensures r.Some? <==> userId in users
    ensures r.Some? ==> (r.value.id == users[userId].id && r.value.email == users[userId].email
                         && r.value.name == users[userId].name)
  {
    if userId in users then Some(UserSummary(users[userId].id, users[userId].email, users[userId].name))
    else None
  }

  /** `findById(id)`: nothing when no order has that id; otherwise the order, its
      user, and every item row of that order with its product. */
  function FindById(db: Db, id: int): (r: Option<OrderDetail>)
    ensures r.None? <==> id !in db.orders
    ensures r.Some? ==> r.value.order == db.orders[id]
    ensures r.Some? ==> r.value.user == UserOf(db.users, db.orders[id].userId)
    ensures r.Some? ==> forall pid :: pid in r.value.items <==> (id, pid) in db.items
    ensures r.Some? ==> forall pid :: pid in r.value.items ==>
      r.value.items[pid].item == db.items[(id, pid)]
      && (r.value.items[pid].product.Some? <==> pid in db.products)
      && r.value.items[pid].product == (if pid in db.products then Some(db.products[pid]) else None)
  {
    if id !in db.orders then None
    else
      var order := db.orders[id];
      var items := map k | k in db.items && k.0 == id ::
        k.1 := ItemDetail(db.items[k], if k.1 in db.products then Some(db.products[k.1]) else None);
      Some(OrderDetail(order, UserOf(db.users, order.userId), items))
  }

  /** In a consistent database both left joins always find their row: an order
      has its user and every item its product. */
  lemma FoundOrderIsJoined(db: Db, id: int)
    requires Valid(db)
    requires id in db.orders
    ensures FindById(db, id).value.user.Some?
    ensures forall pid :: pid in FindById(db, id).value.items ==>
      FindById(db, id).value.items[pid].product == Some(db.products[pid])
  {
  }

  // ---------------------------------------------------------------------------
  // findAll

  /** The condition the query keeps. A dynamic query's later `where` replaces the
      earlier one, so when both filters are given only the status one applies.
      Each filter is applied only when truthy, so a user id of 0 filters nothing
      (the query schema lets only positive user ids through). */
  predicate Matches(o: Order, userId: Option<int>, status: Option<Status>) {
    if status.Some? then o.status == status.value
    else if userId.Some? && userId.value != 0 then o.userId == userId.value
    else true
  }

  /** The orders (with their users) that pass the filter, in scan order. */
  function Select(db: Db, scan: seq<int>, userId: Option<int>, status: Option<Status>): (r: seq<OrderListRow>)
    requires forall i :: 0 <= i < |scan| ==> scan[i] in db.orders
    ensures |r| <= |scan|
    ensures forall i :: 0 <= i < |r| ==>
      && r[i].order.id in db.orders && db.orders[r[i].order.id] == r[i].order
      && Matches(r[i].order, userId, status)
      && r[i].user == UserOf(db.users, r[i].order.userId)
    decreases |scan|
  {
    if scan == [] then []
    else
      var front := Select(db, scan[..|scan| - 1], userId, status);
      var o := db.orders[scan[|scan| - 1]];
      // A row's id is the key it is stored under whenever the tables are valid;
      // testing it here lets the contract speak of `db.orders[r[i].order.id]`
      // without requiring validity.
      if o.id == scan[|scan| - 1] && Matches(o, userId, status) then front + [OrderListRow(o, UserOf(db.users, o.userId))]
      else front
  }

  /** The row `findAll` returns for order `id`. */
  function ListRow(db: Db, id: int): OrderListRow
    requires id in db.orders
  {
    OrderListRow(db.orders[id], UserOf(db.users, db.orders[id].userId))
  }

  /** Every order in the scan that passes the filter is selected. */
  lemma {:induction false} SelectIsComplete(db: Db, scan: seq<int>, userId: Option<int>, status: Option<Status>)
    requires Valid(db)
    requires forall i :: 0 <= i < |scan| ==> scan[i] in db.orders
    ensures forall i :: 0 <= i < |scan| && Matches(db.orders[scan[i]], userId, status) ==>
      ListRow(db, scan[i]) in Select(db, scan, userId, status)
    decreases |scan|
  {
    if scan != [] {
      var front := scan[..|scan| - 1];
      SelectIsComplete(db, front, userId, status);
      var rf := Select(db, front, userId, status);
      forall i | 0 <= i < |scan| && Matches(db.orders[scan[i]], userId, status)
        ensures ListRow(db, scan[i]) in Select(db, scan, userId, status)
      {
        if i < |front| {
          assert front[i] == scan[i];
          assert ListRow(db, front[i]) in rf;
        }
      }
    }
  }

  /** `findAll(limit, offset, filters)`: a page of the filtered orders. */
  function FindAll(db: Db, scan: seq<int>, limit: nat, offset: nat, userId: Option<int>, status: Option<Status>): (r: seq<OrderListRow>)
    requires IsScan(db.orders, scan)
    ensures var s := Select(db, scan, userId, status);
      && |r| == (if offset >= |s| then 0 else if offset + limit <= |s| then limit else |s| - offset)
      && forall i :: 0 <= i < |r| ==> r[i] == s[offset + i]
    ensures forall i :: 0 <= i < |r| ==>
      && r[i].order.id in db.orders && db.orders[r[i].order.id] == r[i].order
      && Matches(r[i].order, userId, status)
      && r[i].user == UserOf(db.users, r[i].order.userId)
  {
    Params.Page(Select(db, scan, userId, status), limit, offset)
  }

  /** Selecting from one scan after another is selecting from each in turn: the
      result keeps the scan order. */
  lemma {:induction false} SelectKeepsScanOrder(db: Db, front: seq<int>, back: seq<int>,
                                                userId: Option<int>, status: Option<Status>)
    requires forall i :: 0 <= i < |front| ==> front[i] in db.orders
    requires forall i :: 0 <= i < |back| ==> back[i] in db.orders
    ensures Select(db, front + back, userId, status) ==
      Select(db, front, userId, status) + Select(db, back, userId, status)
    decreases |back|
  {
    if back == [] {
      assert front + back == front;
    } else {
      var init := back[..|back| - 1];
      assert (front + back)[..|front + back| - 1] == front + init;
      SelectKeepsScanOrder(db, front, init, userId, status);
    }
  }

  /** On a single order, the selection is that order's row when it passes the
      filter and nothing otherwise. */
  lemma SelectOne(db: Db, id: int, userId: Option<int>, status: Option<Status>)
    requires Valid(db)
    requires id in db.orders
    ensures Select(db, [id], userId, status) ==
      if Matches(db.orders[id], userId, status) then [ListRow(db, id)] else []
  {
    assert [id][..0] == [];
  }

  /** The first page holds every matching order when they all fit on it. */
  lemma FirstPageIsComplete(db: Db, scan: seq<int>, limit: nat, userId: Option<int>, status: Option<Status>)
    requires Valid(db)
    requires IsScan(db.orders, scan)
    requires |Select(db, scan, userId, status)| <= limit
    ensures forall id :: id in db.orders && Matches(db.orders[id], userId, status) ==>
      ListRow(db, id) in FindAll(db, scan, limit, 0, userId, status)
  {
    SelectIsComplete(db, scan, userId, status);
    var s := Select(db, scan, userId, status);
    assert FindAll(db, scan, limit, 0, userId, status) == s by {
      if s != [] { assert s[0..] == s; }
    }
    forall id | id in db.orders && Matches(db.orders[id], userId, status)
      ensures ListRow(db, id) in s
    {
      var i :| 0 <= i < |scan| && scan[i] == id;
    }
  }

  // ---------------------------------------------------------------------------
  // createOrderItems

  /** The first row whose quantity or price does not fit its column, if any: a
      multi-row INSERT converts its values before it writes a row. */
  function ColumnError(rows: seq<OrderItem>): (r: Option<Error>)
    ensures r.None? <==> forall i :: 0 <= i < |rows| ==> Int32(rows[i].quantity) && rows[i].priceAtPurchase < NumericLimit
    decreases |rows|
  {
    if rows == [] then None
    else
      match ColumnError(rows[..|rows| - 1])
      case Some(e) => Some(e)
      case None =>
        var row := rows[|rows| - 1];
        if !Int32(row.quantity) then Some(IntegerOutOfRange(row.quantity))
        else if row.priceAtPurchase >= NumericLimit then Some(NumericOverflow(row.priceAtPurchase))
        else None
  }

  /** Whether a row refers to an order or a product that does not exist. */
  predicate Orphan(db: Db, row: OrderItem) {
    row.orderId !in db.orders || row.productId !in db.products
  }

  function OrphanError(db: Db, row: OrderItem): Error
    requires Orphan(db, row)
  {
    if row.orderId !in db.orders then ForeignKeyViolation(OrderRow, row.orderId)
    else ForeignKeyViolation(ProductRow, row.productId)
  }

  /** The first orphan row, as its position, or the number of rows. */
  function FirstOrphan(db: Db, rows: seq<OrderItem>): (f: nat)
    ensures f <= |rows|
    ensures forall i :: 0 <= i < f ==> !Orphan(db, rows[i])
    ensures f < |rows| ==> Orphan(db, rows[f])
    decreases |rows|
  {
    if rows == [] then 0
    else
      var f := FirstOrphan(db, rows[..|rows| - 1]);
      if f < |rows| - 1 then f
      else if Orphan(db, rows[|rows| - 1]) then |rows| - 1
      else |rows|
  }

  /** `createOrderItems(items)`: an empty list inserts nothing; otherwise one
      INSERT of all the rows, refused as a whole by a value that does not fit, a
      taken key (checked row by row) or, at the end of the statement, a row with
      no order or no product. */
  function InsertItems(db: Db, rows: seq<OrderItem>): (r: Result<Db>)
    ensures rows == [] ==> r == Success(db)
    ensures r.Success? ==> r.value == db.(items := r.value.items)
    ensures r.Success? ==> r.value.items.Keys == db.items.Keys + KeysOf(rows)
    ensures r.Success? ==> forall i :: 0 <= i < |rows| ==> r.value.items[KeyOf(rows[i])] == rows[i]
    ensures r.Success? ==> forall k :: k in db.items ==> r.value.items[k] == db.items[k]
  {
    if rows == [] then Success(db)
    else
      match ColumnError(rows)
      case Some(e) => Failure(e)
      case None =>
        match InsertRows(db.items, rows)
        case Failure(e) => Failure(e)
        case Success(items) =>
          var f := FirstOrphan(db, rows);
          if f < |rows| then Failure(OrphanError(db, rows[f]))
          else Success(db.(items := items))
  }

  /** The insert goes through exactly when every value fits, no key repeats and
      every row has its order and its product. */
  lemma InsertItemsSucceedsIff(db: Db, rows: seq<OrderItem>)
    ensures InsertItems(db, rows).Success? <==>
      || rows == []
      || (&& (forall i :: 0 <= i < |rows| ==> Int32(rows[i].quantity) && rows[i].priceAtPurchase < NumericLimit)
          && db.items.Keys !! KeysOf(rows) && NoRepeatedKey(rows)
          && (forall i :: 0 <= i < |rows| ==> !Orphan(db, rows[i])))
  {
    InsertRowsSucceedsIff(db.items, rows);
  }

  /** A committed insert keeps the database consistent: it cannot create an
      orphan item. */
  lemma InsertItemsKeepsValid(db: Db, rows: seq<OrderItem>)
    requires Valid(db)
    requires InsertItems(db, rows).Success?
    ensures Valid(InsertItems(db, rows).value)
  {
    if rows != [] {
      InsertItemsSucceedsIff(db, rows);
      var r := InsertItems(db, rows).value;
      forall k | k in r.items
        ensures r.items[k].orderId == k.0 && r.items[k].productId == k.1
        ensures k.0 in r.orders && k.1 in r.products
        ensures Int32(r.items[k].quantity) && r.items[k].priceAtPurchase < NumericLimit
      {
        if k !in db.items {
          var i :| 0 <= i < |rows| && KeyOf(rows[i]) == k;
        }
      }
    }
  }

  method CreateOrderItems(store: Store, rows: seq<OrderItem>) returns (r: Result<seq<OrderItem>>)
    modifies store
    ensures var spec := InsertItems(old(store.Snapshot()), rows);
      && (spec.Failure? ==> r == Failure(spec.error) && store.Snapshot() == old(store.Snapshot()))
      && (spec.Success? ==> r == Success(rows) && store.Snapshot() == spec.value)
  {
    var spec := InsertItems(store.Snapshot(), rows);
    if spec.Failure? {
      r := Failure(spec.error);
    } else {
      store.Commit(spec.value);
      r := Success(rows);
    }
  }

  // ---------------------------------------------------------------------------
  // update and delete

  /** The row `update(id, data)` writes: the status when one is given, and the
      update time; every other column kept. */
  function Updated(o: Order, status: Option<Status>, now: int): (r: Order)
    ensures r.id == o.id && r.userId == o.userId && r.totalAmount == o.totalAmount && r.createdAt == o.createdAt
    ensures r.status == (if status.Some? then status.value else o.status)
    ensures r.updatedAt == now
  {
    o.(status := status.GetOr(o.status), updatedAt := now)
  }

  /** Setting a status is idempotent: a second identical update at the same time
      changes nothing more. */
  lemma UpdatedIsIdempotent(o: Order, status: Option<Status>, now: int)
    ensures Updated(Updated(o, status, now), status, now) == Updated(o, status, now)
  {
  }

  /** Rewriting one order's status and update time keeps the database consistent. */
  lemma UpdateKeepsValid(db: Db, id: int, status: Option<Status>, now: int)
    requires Valid(db)
    requires id in db.orders
    ensures Valid(db.(orders := db.orders[id := Updated(db.orders[id], status, now)]))
  {
  }

  /** `update(id, data)`: the updated row, or nothing when no order has that id. */
  method Update(store: Store, id: int, status: Option<Status>, now: int) returns (r: Option<Order>)
    modifies store
    ensures r.None? <==> id !in old(store.orders)
    ensures r.None? ==> store.Snapshot() == old(store.Snapshot())
    ensures r.Some? ==> (&& r.value == Updated(old(store.orders)[id], status, now)
                         && store.Snapshot() == old(store.Snapshot()).(orders := old(store.orders)[id := r.value]))
  {
    if id !in store.orders {
      r := None;
    } else {
      var o := Updated(store.orders[id], status, now);
      store.orders := store.orders[id := o];
      r := Some(o);
    }
  }

  /** `delete(id)`: the deleted row, or nothing when no order has that id; the
      order's items go with it. */
  method Delete(store: Store, id: int) returns (r: Option<Order>)
    modifies store
    ensures r.None? <==> id !in old(store.orders)
    ensures r.None? ==> store.Snapshot() == old(store.Snapshot())
    ensures r.Some? ==> (&& r.value == old(store.orders)[id]
                         && store.Snapshot() == DeleteOrderRows(old(store.Snapshot()), id))
  {
    if id !in store.orders {
      r := None;
    } else {
      r := Some(store.orders[id]);
      store.Commit(DeleteOrderRows(store.Snapshot(), id));
    }
  }
}
