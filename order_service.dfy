/** The order service: reading one order (404 when absent), placing an order
    (the workflow of `PlaceOrder.Place`, carried out step by step on the store,
    with every write held back until the whole transaction has succeeded),
    updating an order's status and deleting an order. */
module OrderService {
  import opened Wrappers
  import opened Rows
  import opened Tables
  import opened Storage
  import opened OrderSchema
  import opened PlaceOrder
  import opened OrderRepository

  /** `getOrderById(id)`: the order with its user and items, or 404; the
      database refuses to compare the integer id column with an id wider than
      it. */
  function GetOrder(db: Db, id: int): (r: Result<OrderDetail>)
    ensures !Int32(id) ==> r == Failure(IntegerOutOfRange(id))
    ensures r.Success? <==> Int32(id) && id in db.orders
    ensures Int32(id) && id !in db.orders ==> r == Failure(NotFound(OrderRow, id))
    ensures r.Success? ==> FindById(db, id) == Some(r.value) && r.value.order == db.orders[id]
  {
    if !Int32(id) then Failure(IntegerOutOfRange(id))
    else
      match FindById(db, id)
      case None => Failure(NotFound(OrderRow, id))
      case Some(d) => Success(d)
  }

  /** A failure in the validation loop is final: checking more items does not
      change it. */
  lemma {:induction false} CheckItemsFailureIsFinal(products: map<int, Product>, items: seq<ItemInput>, n: nat)
    requires n <= |items|
    requires CheckItems(products, items[..n]).Failure?
    ensures CheckItems(products, items) == CheckItems(products, items[..n])
    decreases |items| - n
  {
    if n < |items| {
      var front := items[..|items| - 1];
      assert front[..n] == items[..n];
      CheckItemsFailureIsFinal(products, front, n);
    } else {
      assert items[..n] == items;
    }
  }

  /** An order placed is found again with what was placed: its total is the
      value of the items, its status the one asked for (pending by default), its
      user joined, and one item per product ordered, at the price read during
      validation, joined to that product with its stock already reduced. */
  lemma PlacedOrderIsFound(db: Db, input: CreateOrderInput, now: int)
    requires Valid(db)
    requires Place(db, input, now).Success?
    ensures forall i :: 0 <= i < |input.items| ==> input.items[i].productId in db.products
    ensures var p := Place(db, input, now).value;
      var d := FindById(p.db, p.orderId);
      && d.Some?
      && d.value.order.totalAmount == OrderValue(db.products, input.items)
      && d.value.order.status == input.status.GetOr(Pending)
      && d.value.order.userId == input.userId
      && d.value.user == UserOf(db.users, input.userId) && d.value.user.Some?
      && d.value.items.Keys == ProductIds(input.items)
      && forall i :: 0 <= i < |input.items| ==>
           var pid := input.items[i].productId as int;
           && d.value.items[pid].item.quantity == input.items[i].quantity
           && d.value.items[pid].item.priceAtPurchase == db.products[pid].price
           && d.value.items[pid].product == Some(p.db.products[pid])
           && p.db.products[pid].stock == db.products[pid].stock - input.items[i].quantity
  {
    var p := Place(db, input, now).value;
    PlaceStoresHeader(db, input, now);
    PlaceStoresItems(db, input, now);
    PlaceTakesStock(db, input, now);
    NextOrderIdIsFresh(db);
    JoinedItems(db, p.db, p.orderId, input.items);
  }

  /** The items `findById` joins to a new order `id`: one per product the
      items name, each as it was inserted and with its product. */
  lemma JoinedItems(db: Db, after: Db, id: int, items: seq<ItemInput>)
    requires id in after.orders
    requires after.products.Keys == db.products.Keys
    requires forall k :: k in db.items ==> k.0 != id
    requires forall i :: 0 <= i < |items| ==>
      var pid := items[i].productId as int;
      && pid in db.products && (id, pid) in after.items
      && after.items[(id, pid)] == OrderItem(id, pid, items[i].quantity, db.products[pid].price)
    requires forall k :: k in after.items ==> k in db.items || (k.0 == id && k.1 in ProductIds(items))
    ensures var d := FindById(after, id).value;
      && d.items.Keys == ProductIds(items)
      && forall i :: 0 <= i < |items| ==>
           var pid := items[i].productId as int;
           && d.items[pid].item.quantity == items[i].quantity
           && d.items[pid].item.priceAtPurchase == db.products[pid].price
           && d.items[pid].product == Some(after.products[pid])
  {
    var d := FindById(after, id).value;
    forall pid | pid in d.items
      ensures pid in ProductIds(items)
    {
      assert (id, pid) in after.items;
    }
    forall pid | pid in ProductIds(items)
      ensures pid in d.items
    {
      var i :| 0 <= i < |items| && items[i].productId == pid;
      assert (id, pid) in after.items;
    }
  }

  /** The validation loop of `createOrder`: each item in turn must name an
      existing product with enough stock; the price is read into the item's line
      and price times quantity is added to the running total. */
  method ValidateItems(products: map<int, Product>, items: seq<ItemInput>) returns (r: Result<seq<Line>>, total: int)
    ensures r == CheckItems(products, items)
    ensures r.Success? ==> total == Total(r.value)
  {
    total := 0;
    var lines: seq<Line> := [];
    var i := 0;
    while i < |items|
      invariant 0 <= i <= |items|
      invariant CheckItems(products, items[..i]) == Success(lines)
      invariant total == Total(lines)
    {
      var item := items[i];
      ghost var next := items[..i + 1];
      assert next[..i] == items[..i] && next[i] == item;
      if !Int32(item.productId) {
        r := Failure(IntegerOutOfRange(item.productId));
        assert CheckItems(products, next) == r;
        CheckItemsFailureIsFinal(products, items, i + 1);
        return;
      }
      if item.productId !in products {
        r := Failure(Missing(ProductRow, item.productId));
        assert CheckItems(products, next) == r;
        CheckItemsFailureIsFinal(products, items, i + 1);
        return;
      }
      var product := products[item.productId];
      if product.stock < item.quantity {
        r := Failure(InsufficientStock(item.productId, product.stock, item.quantity));
        assert CheckItems(products, next) == r;
        CheckItemsFailureIsFinal(products, items, i + 1);
        return;
      }
      var line := Line(item.productId, item.quantity, product.price);
      assert (lines + [line])[..|lines|] == lines;
      assert CheckItems(products, next) == Success(lines + [line]);
      total := total + product.price * item.quantity;
      lines := lines + [line];
      i := i + 1;
    }
    assert items[..i] == items;
    r := Success(lines);
  }

  /** The stock loop of `createOrder`: one `stock = stock - quantity` per item,
      unconditionally. */
  method TakeStock(products: map<int, Product>, items: seq<ItemInput>) returns (after: map<int, Product>)
    ensures after == Decrement(products, items)
  {
    after := products;
    var k := 0;
    while k < |items|
      invariant 0 <= k <= |items|
      invariant after == Decrement(products, items[..k])
    {
      var item := items[k];
      assert items[..k + 1][..k] == items[..k];
      if item.productId in after {
        after := after[item.productId := after[item.productId].(stock := after[item.productId].stock - item.quantity)];
      }
      k := k + 1;
    }
    assert items[..k] == items;
  }

  /** The reply of `createOrder` as written: `findById` runs through the
      service's own pool handle, on a connection other than the transaction's,
      before the commit, so it reads the tables as they were before the order. */
  function CreateOrderReplyAsWritten(db: Db, input: CreateOrderInput, now: int): (r: Result<Option<OrderDetail>>)
    ensures Place(db, input, now).Failure? ==> r == Failure(Place(db, input, now).error)
    ensures r.Success? <==> Place(db, input, now).Success?
  {
    match Place(db, input, now)
    case Failure(e) => Failure(e)
    case Success(p) => Success(FindById(db, p.orderId))
  }

  /** As written, a placement that commits replies null, although the order
      it committed is there to be found once the transaction has ended. */
  lemma CreateOrderRepliesNull(db: Db, input: CreateOrderInput, now: int)
    requires Valid(db)
    requires Place(db, input, now).Success?
    ensures CreateOrderReplyAsWritten(db, input, now) == Success(None)
    ensures FindById(Place(db, input, now).value.db, Place(db, input, now).value.orderId).Some?
  {
    NextOrderIdIsFresh(db);
    PlacedOrderIsFound(db, input, now);
  }

  /** `createOrder(input)`: the user check, the validation loop over the items
      (price snapshot and running total), then the transaction: the order row,
      the item rows in one insert, and the stock loop. The tables change only
      when every step has succeeded. The placed order is read back once the
      transaction has committed, as the POST route does; the service's own
      read-back, which runs before the commit, is `CreateOrderReplyAsWritten`. */
  method CreateOrder(store: Store, input: CreateOrderInput, now: int) returns (r: Result<OrderDetail>)
    requires store.Valid()
    modifies store
    ensures store.Valid()
    ensures var spec := Place(old(store.Snapshot()), input, now);
      && (spec.Failure? ==> r == Failure(spec.error) && store.Snapshot() == old(store.Snapshot()))
      && (spec.Success? ==> && store.Snapshot() == spec.value.db
                            && r.Success? && FindById(spec.value.db, spec.value.orderId) == Some(r.value))
  {
    ghost var db := store.Snapshot();
    if !Int32(input.userId) {
      r := Failure(IntegerOutOfRange(input.userId));
      return;
    }
    if input.userId !in store.users {
      r := Failure(Missing(UserRow, input.userId));
      return;
    }

    var checked, total := ValidateItems(store.products, input.items);
    if checked.Failure? {
      r := Failure(checked.error);
      return;
    }
    var lines := checked.value;

    // The order row's INSERT: the serial id is drawn first, then the total is
    // converted to its column.
    if store.nextOrderId > MaxInt32 {
      r := Failure(SequenceExhausted(OrderRow));
      return;
    }
    if total >= NumericLimit {
      r := Failure(NumericOverflow(total));
      return;
    }
    // The item rows' INSERT is refused by the query builder when there are none.
    if lines == [] {
      assert Place(db, input, now) == Failure(EmptyInsert);
      r := Failure(EmptyInsert);
      return;
    }

    // The transaction: nothing reaches the store before the last step succeeds.
    var id := store.nextOrderId;
    var order := Order(id, input.userId, total, input.status.GetOr(Pending), now, now);
    var inserted := InsertRows(store.items, ItemRows(id, lines));
    if inserted.Failure? {
      assert Place(db, input, now) == Failure(inserted.error);
      r := Failure(inserted.error);
      return;
    }

    var products := TakeStock(store.products, input.items);

    store.orders := store.orders[id := order];
    store.items := inserted.value;
    store.products := products;
    store.nextOrderId := id + 1;
    assert Place(db, input, now) == Success(Placed(store.Snapshot(), id));
    PlaceKeepsValid(db, input, now);
    r := Success(FindById(store.Snapshot(), id).value);
  }

  /** `updateOrder(id, input)`: 404 when the order is absent; otherwise its status
      (when given) and its update time are written and the order is read back. */
  method UpdateOrder(store: Store, id: int, input: UpdateOrderInput, now: int) returns (r: Result<OrderDetail>)
    requires store.Valid()
    modifies store
    ensures store.Valid()
    ensures r.Success? <==> Int32(id) && id in old(store.orders)
    ensures !Int32(id) ==> r == Failure(IntegerOutOfRange(id))
    ensures Int32(id) && id !in old(store.orders) ==> r == Failure(NotFound(OrderRow, id))
    ensures r.Failure? ==> store.Snapshot() == old(store.Snapshot())
    ensures r.Success? ==>
      && store.Snapshot() == old(store.Snapshot()).(orders := old(store.orders)[id := Updated(old(store.orders)[id], input.status, now)])
      && FindById(store.Snapshot(), id) == Some(r.value)
  {
    if !Int32(id) {
      r := Failure(IntegerOutOfRange(id));
      return;
    }
    var existing := FindById(store.Snapshot(), id);
    if existing.None? {
      r := Failure(NotFound(OrderRow, id));
      return;
    }
    ghost var db := store.Snapshot();
    var updated := Update(store, id, input.status, now);
    UpdateKeepsValid(db, id, input.status, now);
    r := Success(FindById(store.Snapshot(), id).value);
  }

  /** `deleteOrder(id)`: 404 when the order is absent; otherwise the order and
      its items are gone. */
  method DeleteOrder(store: Store, id: int) returns (r: Result<string>)
    requires store.Valid()
    modifies store
    ensures store.Valid()
    ensures r.Success? <==> Int32(id) && id in old(store.orders)
    ensures !Int32(id) ==> r == Failure(IntegerOutOfRange(id))
    ensures Int32(id) && id !in old(store.orders) ==> r == Failure(NotFound(OrderRow, id))
    ensures r.Failure? ==> store.Snapshot() == old(store.Snapshot())
    ensures r.Success? ==> (&& r.value == "Order deleted successfully"
                            && store.Snapshot() == DeleteOrderRows(old(store.Snapshot()), id))
  {
    if !Int32(id) {
      r := Failure(IntegerOutOfRange(id));
      return;
    }
    ghost var db := store.Snapshot();
    var deleted := Delete(store, id);
    if deleted.None? {
      r := Failure(NotFound(OrderRow, id));
    } else {
      DeleteOrderKeepsValid(db, id);
      r := Success("Order deleted successfully");
    }
  }
}
