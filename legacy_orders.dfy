/** The order routes of the SQLite version: an order is one product for one
    user in some quantity. Creating an order checks that the user and the
    product exist and stores the three numbers as given: there is no stock and
    no price in an order here. Every handler is a function from the tables
    before to the reply and the tables after, and a method on the store that
    carries it out. */
module LegacyOrders {
  import opened Wrappers
  import Rows
  import Tables
  import opened LegacyTables

  /** A request body as JSON: each field is absent (`None`) or a number. */
  datatype OrderBody = OrderBody(userId: Option<int>, productId: Option<int>, quantity: Option<int>)

  datatype NewOrder = NewOrder(userId: Rows.Positive, productId: Rows.Positive, quantity: Rows.Positive)

  datatype OrderChanges = OrderChanges(userId: Option<Rows.Positive>, productId: Option<Rows.Positive>, quantity: Option<Rows.Positive>)

  datatype UserSummary = UserSummary(id: int, name: string, email: string)

  datatype ProductSummary = ProductSummary(id: int, name: string, price: nat, description: Option<string>)

  /** An order row left-joined with its user and its product. */
  datatype OrderView = OrderView(order: Order, user: Option<UserSummary>, product: Option<ProductSummary>)

  predicate Present(v: Option<int>) {
    v.Some? && v.value > 0
  }

  predicate AbsentOrPositive(v: Option<int>) {
    v.None? || v.value > 0
  }

  /** `createOrderSchema`: all three fields present and positive integers. */
  function ParseNewOrder(b: OrderBody): (r: Result<NewOrder>)
    ensures r.Success? <==> Present(b.userId) && Present(b.productId) && Present(b.quantity)
    ensures r.Success? ==>
      r.value.userId == b.userId.value && r.value.productId == b.productId.value
      && r.value.quantity == b.quantity.value
    ensures r.Failure? ==> r.error.Invalid?
  {
    if !Present(b.userId) then Failure(Invalid("userId"))
    else if !Present(b.productId) then Failure(Invalid("productId"))
    else if !Present(b.quantity) then Failure(Invalid("quantity"))
    else Success(NewOrder(b.userId.value, b.productId.value, b.quantity.value))
  }

  /** `updateOrderSchema`: each field may be left out, and a field given must be
      a positive integer. */
  function ParseOrderChanges(b: OrderBody): (r: Result<OrderChanges>)
    ensures r.Success? <==> AbsentOrPositive(b.userId) && AbsentOrPositive(b.productId) && AbsentOrPositive(b.quantity)
    ensures r.Success? ==>
      && (r.value.userId.Some? <==> b.userId.Some?)
      && (r.value.productId.Some? <==> b.productId.Some?)
      && (r.value.quantity.Some? <==> b.quantity.Some?)
      && (b.userId.Some? ==> r.value.userId.value == b.userId.value)
      && (b.productId.Some? ==> r.value.productId.value == b.productId.value)
      && (b.quantity.Some? ==> r.value.quantity.value == b.quantity.value)
    ensures r.Failure? ==> r.error.Invalid?
  {
    if !AbsentOrPositive(b.userId) then Failure(Invalid("userId"))
    else if !AbsentOrPositive(b.productId) then Failure(Invalid("productId"))
    else if !AbsentOrPositive(b.quantity) then Failure(Invalid("quantity"))
    else
      Success(OrderChanges(
        if b.userId.None? then None else Some(b.userId.value),
        if b.productId.None? then None else Some(b.productId.value),
        if b.quantity.None? then None else Some(b.quantity.value)))
  }

  /** The left joins of the order queries: the user and the product columns are
      null when no row matches. */
  function View(db: Db, o: Order): (v: OrderView)
    ensures v.order == o
    ensures v.user.Some? <==> o.userId in db.users
    ensures v.product.Some? <==> o.productId in db.products
    ensures v.user.Some? ==> var u := db.users[o.userId]; v.user.value == UserSummary(u.id, u.name, u.email)
    ensures v.product.Some? ==>
      var p := db.products[o.productId]; v.product.value == ProductSummary(p.id, p.name, p.price, p.description)
  {
    OrderView(
      o,
      if o.userId in db.users then
        var u := db.users[o.userId]; Some(UserSummary(u.id, u.name, u.email))
      else None,
      if o.productId in db.products then
        var p := db.products[o.productId]; Some(ProductSummary(p.id, p.name, p.price, p.description))
      else None)
  }

  /** `GET /orders`: every order, joined, in the order the database scans them. */
  function ListOrders(db: Db, scan: seq<int>): (r: seq<OrderView>)
    requires Tables.IsScan(db.orders, scan)
    ensures |r| == |scan| == |db.orders|
    ensures forall i :: 0 <= i < |r| ==> r[i] == View(db, db.orders[scan[i]])
  {
    ScanCoversTable(db.orders, scan);
    seq(|scan|, i requires 0 <= i < |scan| => View(db, db.orders[scan[i]]))
  }

  /** A scan lists as many ids as the table has rows. */
  lemma {:induction false} ScanCoversTable<T>(table: map<int, T>, scan: seq<int>)
    requires Tables.IsScan(table, scan)
    ensures |scan| == |table|
    decreases |scan|
  {
    if scan == [] {
      assert table.Keys == {};
    } else {
      var id := scan[|scan| - 1];
      var rest := scan[..|scan| - 1];
      var smaller := map k | k in table && k != id :: table[k];
      forall k | k in smaller ensures k in rest {
        var i :| 0 <= i < |scan| && scan[i] == k;
        assert i != |scan| - 1;
        assert rest[i] == k;
      }
      assert Tables.IsScan(smaller, rest);
      ScanCoversTable(smaller, rest);
      assert table.Keys == smaller.Keys + {id};
    }
  }

  /** Every order of the table shows up in the listing. */
  lemma ListOrdersIsComplete(db: Db, scan: seq<int>, id: int)
    requires Tables.IsScan(db.orders, scan)
    requires id in db.orders
    ensures View(db, db.orders[id]) in ListOrders(db, scan)
  {
    var i :| 0 <= i < |scan| && scan[i] == id;
    assert ListOrders(db, scan)[i] == View(db, db.orders[id]);
  }

  /** `GET /orders/:id`: 400 for an id that is not a number, 404 for no such
      order, otherwise the joined order. */
  function GetOrder(db: Db, idText: string): (r: Result<OrderView>)
    ensures ParseRowId(idText).Failure? ==> r == Failure(Invalid("id"))
    ensures ParseRowId(idText).Success? ==>
      var id := ParseRowId(idText).value;
      && (id !in db.orders ==> r == Failure(NotFound(OrderRow, id)))
      && (id in db.orders ==> r == Success(View(db, db.orders[id])))
  {
    match ParseRowId(idText)
    case Failure(e) => Failure(e)
    case Success(id) =>
      if id in db.orders then Success(View(db, db.orders[id])) else Failure(NotFound(OrderRow, id))
  }

  /** `POST /orders`: a malformed body, an unknown user and an unknown product
      are each a 400 that writes nothing; otherwise one row is inserted with the
      next id and exactly the three numbers of the request. */
  function CreateOrderRow(db: Db, b: OrderBody, now: int): (r: Result<Written<Order>>)
    ensures r.Success? <==>
      && ParseNewOrder(b).Success?
      && b.userId.value in db.users
      && b.productId.value in db.products
    ensures ParseNewOrder(b).Failure? ==> r == Failure(ParseNewOrder(b).error)
    ensures ParseNewOrder(b).Success? && b.userId.value !in db.users ==> r == Failure(Missing(UserRow, b.userId.value))
    ensures ParseNewOrder(b).Success? && b.userId.value in db.users && b.productId.value !in db.products ==>
      r == Failure(Missing(ProductRow, b.productId.value))
    ensures r.Success? ==>
      var o := r.value.row;
      && o == Order(db.nextOrderId, b.userId.value, b.productId.value, b.quantity.value, now)
      && r.value.db == db.(orders := db.orders[o.id := o], nextOrderId := o.id + 1)
  {
    match ParseNewOrder(b)
    case Failure(e) => Failure(e)
    case Success(input) =>
      if input.userId !in db.users then Failure(Missing(UserRow, input.userId))
      else if input.productId !in db.products then Failure(Missing(ProductRow, input.productId))
      else
        var o := Order(db.nextOrderId, input.userId, input.productId, input.quantity, now);
        Success(Written(db.(orders := db.orders[o.id := o], nextOrderId := o.id + 1), o))
  }

  /** A created order gets an id no order had, refers to a user and a product
      that exist, keeps the tables consistent, and reads back as written. */
  lemma CreateOrderKeepsConsistent(db: Db, b: OrderBody, now: int)
    requires Consistent(db)
    requires CreateOrderRow(db, b, now).Success?
    ensures var w := CreateOrderRow(db, b, now).value;
      && w.row.id !in db.orders
      && w.row.userId in w.db.users && w.row.productId in w.db.products
      && Consistent(w.db)
      && GetOrder(w.db, Numbers.NatToDigits(w.row.id)) == Success(View(w.db, w.row))
  {
    var w := CreateOrderRow(db, b, now).value;
    ParseRowIdOfDigits(w.row.id, "");
    assert Numbers.NatToDigits(w.row.id) + "" == Numbers.NatToDigits(w.row.id);
  }

  /** The row `.set({ userId, productId, quantity })` writes: the fields given
      replace the stored ones, the others stay. */
  function Changed(o: Order, c: OrderChanges): (r: Order)
    ensures r.id == o.id && r.createdAt == o.createdAt
    ensures r.userId == (if c.userId.Some? then c.userId.value else o.userId)
    ensures r.productId == (if c.productId.Some? then c.productId.value else o.productId)
    ensures r.quantity == (if c.quantity.Some? then c.quantity.value else o.quantity)
  {
    o.(userId := if c.userId.Some? then c.userId.value else o.userId,
       productId := if c.productId.Some? then c.productId.value else o.productId,
       quantity := if c.quantity.Some? then c.quantity.value else o.quantity)
  }

  /** Applying the same changes twice is applying them once, and no change
      leaves the order as it is. */
  lemma ChangedIsIdempotent(o: Order, c: OrderChanges)
    ensures Changed(Changed(o, c), c) == Changed(o, c)
    ensures Changed(o, OrderChanges(None, None, None)) == o
  {
  }

  predicate NoChanges(c: OrderChanges) {
    c.userId.None? && c.productId.None? && c.quantity.None?
  }

  /** `PUT /orders/:id`. In this order: 400 for an id that is not a number, 400
      for a malformed body, 400 for a user or a product that is given and does
      not exist (one that is not given is not looked up), 400 when the body
      sets nothing (the query builder refuses an empty SET), 404 when no order
      has the id; otherwise the given fields are written into that one row. */
  function UpdateOrderRow(db: Db, idText: string, b: OrderBody): (r: Result<Written<Order>>)
    ensures r.Success? <==>
      && ParseRowId(idText).Success?
      && ParseOrderChanges(b).Success?
      && (b.userId.Some? ==> b.userId.value in db.users)
      && (b.productId.Some? ==> b.productId.value in db.products)
      && !NoChanges(ParseOrderChanges(b).value)
      && ParseRowId(idText).value in db.orders
    ensures ParseRowId(idText).Failure? ==> r == Failure(Invalid("id"))
    ensures ParseRowId(idText).Success? && ParseOrderChanges(b).Failure? ==> r == Failure(ParseOrderChanges(b).error)
    ensures ParseRowId(idText).Success? && ParseOrderChanges(b).Success? && b.userId.Some? && b.userId.value !in db.users ==>
      r == Failure(Missing(UserRow, b.userId.value))
    ensures r.Failure? && ParseRowId(idText).Success? && ParseOrderChanges(b).Success?
            && (b.userId.Some? ==> b.userId.value in db.users)
            && (b.productId.Some? ==> b.productId.value in db.products)
            && !NoChanges(ParseOrderChanges(b).value) ==>
      r == Failure(NotFound(OrderRow, ParseRowId(idText).value))
    ensures r.Success? ==>
      var id := ParseRowId(idText).value;
      var o := Changed(db.orders[id], ParseOrderChanges(b).value);
      r.value == Written(db.(orders := db.orders[id := o]), o)
  {
    match ParseRowId(idText)
    case Failure(e) => Failure(e)
    case Success(id) =>
      match ParseOrderChanges(b)
      case Failure(e) => Failure(e)
      case Success(c) =>
        if c.userId.Some? && c.userId.value !in db.users then Failure(Missing(UserRow, c.userId.value))
        else if c.productId.Some? && c.productId.value !in db.products then Failure(Missing(ProductRow, c.productId.value))
        else if NoChanges(c) then Failure(Invalid("body"))
        else if id !in db.orders then Failure(NotFound(OrderRow, id))
        else
          var o := Changed(db.orders[id], c);
          Success(Written(db.(orders := db.orders[id := o]), o))
  }

  /** An update rewrites one order, leaves every other row alone and keeps the
      tables consistent; a user or product it names exists. */
  lemma UpdateOrderKeepsConsistent(db: Db, idText: string, b: OrderBody)
    requires Consistent(db)
    requires UpdateOrderRow(db, idText, b).Success?
    ensures var w := UpdateOrderRow(db, idText, b).value;
      && Consistent(w.db)
      && w.db.orders.Keys == db.orders.Keys
      && (forall other :: other in db.orders && other != w.row.id ==> w.db.orders[other] == db.orders[other])
      && (b.userId.Some? ==> w.row.userId in db.users)
      && (b.productId.Some? ==> w.row.productId in db.products)
  {
  }

  /** `DELETE /orders/:id`: 400 for an id that is not a number, 404 for no such
      order, otherwise that one row goes (204, no body). */
  function DeleteOrderRow(db: Db, idText: string): (r: Result<Db>)
    ensures ParseRowId(idText).Failure? ==> r == Failure(Invalid("id"))
    ensures ParseRowId(idText).Success? ==>
      var id := ParseRowId(idText).value;
      && (id !in db.orders ==> r == Failure(NotFound(OrderRow, id)))
      && (id in db.orders ==> r == Success(db.(orders := db.orders - {id})))
  {
    match ParseRowId(idText)
    case Failure(e) => Failure(e)
    case Success(id) =>
      if id in db.orders then Success(db.(orders := db.orders - {id})) else Failure(NotFound(OrderRow, id))
  }

  /** A deleted order is gone for good: reading it afterwards is a 404, and the
      tables stay consistent. */
  lemma DeletedOrderIsGone(db: Db, idText: string)
    requires Consistent(db)
    requires DeleteOrderRow(db, idText).Success?
    ensures Consistent(DeleteOrderRow(db, idText).value)
    ensures GetOrder(DeleteOrderRow(db, idText).value, idText) == Failure(NotFound(OrderRow, ParseRowId(idText).value))
  {
  }

  method PostOrder(store: Store, b: OrderBody, now: int) returns (r: Result<Order>)
    requires store.Valid()
    modifies store
    ensures store.Valid()
    ensures var spec := CreateOrderRow(old(store.Snapshot()), b, now);
      && (spec.Failure? ==> r == Failure(spec.error) && store.Snapshot() == old(store.Snapshot()))
      && (spec.Success? ==> r == Success(spec.value.row) && store.Snapshot() == spec.value.db)
  {
    var spec := CreateOrderRow(store.Snapshot(), b, now);
    if spec.Failure? {
      r := Failure(spec.error);
    } else {
      CreateOrderKeepsConsistent(store.Snapshot(), b, now);
      store.Commit(spec.value.db);
      r := Success(spec.value.row);
    }
  }

  method PutOrder(store: Store, idText: string, b: OrderBody) returns (r: Result<Order>)
    requires store.Valid()
    modifies store
    ensures store.Valid()
    ensures var spec := UpdateOrderRow(old(store.Snapshot()), idText, b);
      && (spec.Failure? ==> r == Failure(spec.error) && store.Snapshot() == old(store.Snapshot()))
      && (spec.Success? ==> r == Success(spec.value.row) && store.Snapshot() == spec.value.db)
  {
    var spec := UpdateOrderRow(store.Snapshot(), idText, b);
    if spec.Failure? {
      r := Failure(spec.error);
    } else {
      UpdateOrderKeepsConsistent(store.Snapshot(), idText, b);
      store.Commit(spec.value.db);
      r := Success(spec.value.row);
    }
  }

  /** Success carries no body: the reply is 204. */
  method DeleteOrder(store: Store, idText: string) returns (r: Result<()>)
    requires store.Valid()
    modifies store
    ensures store.Valid()
    ensures var spec := DeleteOrderRow(old(store.Snapshot()), idText);
      && (spec.Failure? ==> r == Failure(spec.error) && store.Snapshot() == old(store.Snapshot()))
      && (spec.Success? ==> r == Success(()) && store.Snapshot() == spec.value)
  {
    var spec := DeleteOrderRow(store.Snapshot(), idText);
    if spec.Failure? {
      r := Failure(spec.error);
    } else {
      DeletedOrderIsGone(store.Snapshot(), idText);
      store.Commit(spec.value);
      r := Success(());
    }
  }
}
