/** The order routes: each handler validates its path parameter, then its body
    or query, against the order schemas (400 on the first that fails, before any
    table is read), and then runs the same queries and writes as the order
    service. */
module OrderRoutes {
  import opened Wrappers
  import opened Rows
  import opened Tables
  import opened Storage
  import opened OrderSchema
  import opened PlaceOrder
  import opened OrderRepository
  import OrderService
  import Params

  /** The user id the query compares with orders.user_id: the later status
      filter replaces it when both are given. */
  function UserFilter(q: ListOrdersQuery): (u: Option<int>)
    ensures u.Some? <==> q.userId.Some? && q.status.None?
    ensures u.Some? ==> u.value == q.userId.value
  {
    if q.userId.Some? && q.status.None? then Some(q.userId.value as int) else None
  }

  /** GET /api/orders: a page of the orders, filtered as the query asks; a user
      id too wide for the integer column is refused by the database when the
      query compares with it. */
  function ListOrders(db: Db, scan: seq<int>, limit: Option<string>, offset: Option<string>,
                      userId: Option<string>, status: Option<string>): (r: Result<seq<OrderListRow>>)
    requires IsScan(db.orders, scan)
    ensures var q := ParseListOrdersQuery(limit, offset, userId, status);
      && (q.Failure? ==> r == Failure(q.error))
      && (q.Success? && UserFilter(q.value).Some? && !Int32(UserFilter(q.value).value) ==>
            r == Failure(IntegerOutOfRange(UserFilter(q.value).value)))
      && (r.Success? <==> q.Success? && (UserFilter(q.value).Some? ==> Int32(UserFilter(q.value).value)))
      && (r.Success? ==> r.value == FindAll(db, scan, q.value.limit, q.value.offset, UserFilter(q.value), q.value.status))
    ensures r.Success? ==> |r.value| <= Params.MaxLimit
    ensures r.Success? && limit.None? ==> |r.value| <= Params.DefaultLimit
    ensures r.Success? && status.Some? ==> forall i :: 0 <= i < |r.value| ==>
      StatusName(r.value[i].order.status) == status.value
    ensures r.Success? && status.None? && userId.Some? ==> forall i :: 0 <= i < |r.value| ==>
      r.value[i].order.userId == Params.ParseId(userId.value).value
  {
    match ParseListOrdersQuery(limit, offset, userId, status)
    case Failure(e) => Failure(e)
    case Success(q) =>
      var u := UserFilter(q);
      if u.Some? && !Int32(u.value) then Failure(IntegerOutOfRange(u.value))
      else
        var rows := FindAll(db, scan, q.limit, q.offset, u, q.status);
        assert |rows| <= q.limit;
        Success(rows)
  }

  /** GET /api/orders/:id: 400 for an id that is not a positive integer, 404 for
      one no order has, otherwise the order with its user and items. */
  function GetOrder(db: Db, idText: string): (r: Result<OrderDetail>)
    ensures Params.ParseId(idText).Failure? ==> r == Failure(Invalid("id"))
    ensures Params.ParseId(idText).Success? ==> r == OrderService.GetOrder(db, Params.ParseId(idText).value)
  {
    match Params.ParseId(idText)
    case Failure(e) => Failure(e)
    case Success(id) => OrderService.GetOrder(db, id)
  }

  /** POST /api/orders: the body is validated, then the order is placed. */
  method PostOrder(store: Store, body: CreateOrderBody, now: int) returns (r: Result<OrderDetail>)
    requires store.Valid()
    modifies store
    ensures store.Valid()
    ensures ParseCreateOrder(body).Failure? ==>
      r == Failure(ParseCreateOrder(body).error) && store.Snapshot() == old(store.Snapshot())
    ensures ParseCreateOrder(body).Success? ==>
      var spec := Place(old(store.Snapshot()), ParseCreateOrder(body).value, now);
      && (spec.Failure? ==> r == Failure(spec.error) && store.Snapshot() == old(store.Snapshot()))
      && (spec.Success? ==> && store.Snapshot() == spec.value.db
                            && r.Success? && FindById(spec.value.db, spec.value.orderId) == Some(r.value))
  {
    var input := ParseCreateOrder(body);
    if input.Failure? {
      r := Failure(input.error);
      return;
    }
    r := OrderService.CreateOrder(store, input.value, now);
  }

  /** PUT /api/orders/:id: the id and the body are validated; the update itself
      answers 404 when it touches no row; the order is then read back. */
  method PutOrder(store: Store, idText: string, body: UpdateOrderBody, now: int) returns (r: Result<OrderDetail>)
    requires store.Valid()
    modifies store
    ensures store.Valid()
    ensures Params.ParseId(idText).Failure? ==> r == Failure(Invalid("id")) && store.Snapshot() == old(store.Snapshot())
    ensures Params.ParseId(idText).Success? && ParseUpdateOrder(body).Failure? ==>
      r == Failure(ParseUpdateOrder(body).error) && store.Snapshot() == old(store.Snapshot())
    ensures Params.ParseId(idText).Success? && ParseUpdateOrder(body).Success? ==>
      var id := Params.ParseId(idText).value;
      var status := ParseUpdateOrder(body).value.status;
      && (r.Success? <==> Int32(id) && id in old(store.orders))
      && (!Int32(id) ==> r == Failure(IntegerOutOfRange(id)))
      && (Int32(id) && id !in old(store.orders) ==> r == Failure(NotFound(OrderRow, id)))
      && (r.Failure? ==> store.Snapshot() == old(store.Snapshot()))
      && (r.Success? ==>
            && store.Snapshot() == old(store.Snapshot()).(orders := old(store.orders)[id := Updated(old(store.orders)[id], status, now)])
            && FindById(store.Snapshot(), id) == Some(r.value))
  {
    var id := Params.ParseId(idText);
    if id.Failure? {
      r := Failure(id.error);
      return;
    }
    var input := ParseUpdateOrder(body);
    if input.Failure? {
      r := Failure(input.error);
      return;
    }
    if !Int32(id.value) {
      r := Failure(IntegerOutOfRange(id.value));
      return;
    }
    ghost var db := store.Snapshot();
    var updated := Update(store, id.value, input.value.status, now);
    if updated.None? {
      r := Failure(NotFound(OrderRow, id.value));
      return;
    }
    UpdateKeepsValid(db, id.value, input.value.status, now);
    r := Success(FindById(store.Snapshot(), id.value).value);
  }

  /** DELETE /api/orders/:id: 400 for a malformed id, 404 for an absent order;
      otherwise the order and its items are deleted. */
  method DeleteOrder(store: Store, idText: string) returns (r: Result<string>)
    requires store.Valid()
    modifies store
    ensures store.Valid()
    ensures Params.ParseId(idText).Failure? ==> r == Failure(Invalid("id")) && store.Snapshot() == old(store.Snapshot())
    ensures Params.ParseId(idText).Success? ==>
      var id := Params.ParseId(idText).value;
      && (r.Success? <==> Int32(id) && id in old(store.orders))
      && (!Int32(id) ==> r == Failure(IntegerOutOfRange(id)))
      && (Int32(id) && id !in old(store.orders) ==> r == Failure(NotFound(OrderRow, id)))
      && (r.Failure? ==> store.Snapshot() == old(store.Snapshot()))
      && (r.Success? ==> r.value == "Order deleted successfully"
                         && store.Snapshot() == DeleteOrderRows(old(store.Snapshot()), id))
  {
    var id := Params.ParseId(idText);
    if id.Failure? {
      r := Failure(id.error);
      return;
    }
    r := OrderService.DeleteOrder(store, id.value);
  }
}
