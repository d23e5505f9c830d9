/** The order-placement workflow of `OrderService.createOrder` as a function of the
    tables before the call: the user check, the per-line pre-check in item order
    with the price snapshot and running total, and the transaction that inserts
    the order header, inserts one item row per line (keyed by (order_id,
    product_id)) and takes each line's quantity off its product's stock. Any
    failure yields no tables at all: the transaction leaves nothing behind.

    The lemmas below are what the workflow promises: the total is the sum of
    price times quantity, each product loses exactly what was ordered of it, the
    tables' constraints survive (no orphan items, no negative stock), and why
    stock cannot go negative even though the decrement itself is unconditional. */
module PlaceOrder {
  import opened Wrappers
  import opened Rows
  import opened Tables
  import opened OrderSchema

  /** A line that passed the pre-check, with the price read during validation. */
  datatype Line = Line(productId: Positive, quantity: Positive, priceAtPurchase: nat)

  /** The result of a committed placement: the new tables and the new order's id. */
  datatype Placed = Placed(db: Db, orderId: int)

  /** Whether the pre-check rejects `item`: its product id is too wide for the
      integer column the lookup compares it with, or the product is absent or
      has less stock than the quantity asked for. */
  predicate Fails(products: map<int, Product>, item: ItemInput) {
    !Int32(item.productId) || item.productId !in products || products[item.productId].stock < item.quantity
  }

  function CheckError(products: map<int, Product>, item: ItemInput): Error
    requires Fails(products, item)
  {
    if !Int32(item.productId) then IntegerOutOfRange(item.productId)
    else if item.productId !in products then Missing(ProductRow, item.productId)
    else InsufficientStock(item.productId, products[item.productId].stock, item.quantity)
  }

  function LineOf(products: map<int, Product>, item: ItemInput): Line
    requires item.productId in products
  {
    Line(item.productId, item.quantity, products[item.productId].price)
  }

  /** The validation loop: items are checked in order and the first failure is
      reported; on success every item passed and produced its line. */
  function CheckItems(products: map<int, Product>, items: seq<ItemInput>): (r: Result<seq<Line>>)
    ensures r.Success? ==>
      && |r.value| == |items|
      && forall i :: 0 <= i < |items| ==>
           !Fails(products, items[i]) && r.value[i] == LineOf(products, items[i])
    decreases |items|
  {
    if items == [] then Success([])
    else
      match CheckItems(products, items[..|items| - 1])
      case Failure(e) => Failure(e)
      case Success(lines) =>
        var item := items[|items| - 1];
        if Fails(products, item) then Failure(CheckError(products, item))
        else Success(lines + [LineOf(products, item)])
  }

  /** The position of the first item the pre-check rejects, or the number of
      items when it rejects none. */
  function FirstFailing(products: map<int, Product>, items: seq<ItemInput>): (f: nat)
    ensures f <= |items|
    ensures forall j :: 0 <= j < f ==> !Fails(products, items[j])
    ensures f < |items| ==> Fails(products, items[f])
    decreases |items|
  {
    if items == [] then 0
    else
      var f := FirstFailing(products, items[..|items| - 1]);
      if f < |items| - 1 then f
      else if Fails(products, items[|items| - 1]) then |items| - 1
      else |items|
  }

  /** The running total of the validation loop: price snapshot times quantity,
      summed over the lines. */
  function Total(lines: seq<Line>): nat
    decreases |lines|
  {
    if lines == [] then 0
    else
      var last := lines[|lines| - 1];
      Total(lines[..|lines| - 1]) + last.priceAtPurchase * last.quantity
  }

  /** What an order of `items` is worth at the current product prices. */
  function OrderValue(products: map<int, Product>, items: seq<ItemInput>): nat
    requires forall i :: 0 <= i < |items| ==> items[i].productId in products
    decreases |items|
  {
    if items == [] then 0
    else
      var last := items[|items| - 1];
      OrderValue(products, items[..|items| - 1]) + products[last.productId].price * last.quantity
  }

  /** How much of product `id` the items ask for in all. */
  function Ordered(items: seq<ItemInput>, id: int): nat
    decreases |items|
  {
    if items == [] then 0
    else
      var last := items[|items| - 1];
      Ordered(items[..|items| - 1], id) + (if last.productId == id then last.quantity else 0)
  }

  predicate DistinctProducts(items: seq<ItemInput>) {
    forall i, j :: 0 <= i < j < |items| ==> items[i].productId != items[j].productId
  }

  /** The stock loop: `stock = stock - quantity` for each item in turn, with no
      condition; an UPDATE whose product row is absent changes nothing. */
  function Decrement(products: map<int, Product>, items: seq<ItemInput>): (r: map<int, Product>)
    ensures r.Keys == products.Keys
    decreases |items|
  {
    if items == [] then products
    else
      var before := Decrement(products, items[..|items| - 1]);
      var last := items[|items| - 1];
      if last.productId in before then
        before[last.productId := before[last.productId].(stock := before[last.productId].stock - last.quantity)]
      else before
  }

  /** The item rows of order `orderId`, one per line, in line order. */
  function ItemRows(orderId: int, lines: seq<Line>): (rows: seq<OrderItem>)
    ensures |rows| == |lines|
    ensures forall i :: 0 <= i < |lines| ==>
      rows[i] == OrderItem(orderId, lines[i].productId, lines[i].quantity, lines[i].priceAtPurchase)
  {
    seq(|lines|, i requires 0 <= i < |lines| =>
      OrderItem(orderId, lines[i].productId, lines[i].quantity, lines[i].priceAtPurchase))
  }

  /** `createOrder(input)` with the clock reading `now`. */
  function Place(db: Db, input: CreateOrderInput, now: int): (r: Result<Placed>)
    ensures r.Success? ==>
      && input.userId in db.users
      && r.value.orderId == db.nextOrderId <= MaxInt32
      && r.value.orderId in r.value.db.orders
      && r.value.db.nextOrderId == db.nextOrderId + 1
      && r.value.db.users == db.users
      && r.value.db.nextUserId == db.nextUserId && r.value.db.nextProductId == db.nextProductId
  {
    if !Int32(input.userId) then Failure(IntegerOutOfRange(input.userId))
    else if input.userId !in db.users then Failure(Missing(UserRow, input.userId))
    else
      match CheckItems(db.products, input.items)
      case Failure(e) => Failure(e)
      case Success(lines) =>
        var total := Total(lines);
        var id := db.nextOrderId;
        if id > MaxInt32 then Failure(SequenceExhausted(OrderRow))
        else if total >= NumericLimit then Failure(NumericOverflow(total))
        else if lines == [] then Failure(EmptyInsert)
        else
          var order := Order(id, input.userId, total, input.status.GetOr(Pending), now, now);
          match InsertRows(db.items, ItemRows(id, lines))
          case Failure(e) => Failure(e)
          case Success(items) =>
            Success(Placed(db.(orders := db.orders[id := order],
                               items := items,
                               products := Decrement(db.products, input.items),
                               nextOrderId := id + 1), id))
  }

  // ---------------------------------------------------------------------------
  // The pre-check

  /** The pre-check fails exactly when some item fails it, and then it reports the
      first such item: checks run in item order. */
  lemma {:induction false} CheckItemsFailsAtFirst(products: map<int, Product>, items: seq<ItemInput>)
    ensures var f := FirstFailing(products, items);
      && (CheckItems(products, items).Failure? <==> f < |items|)
      && (f < |items| ==> CheckItems(products, items).error == CheckError(products, items[f]))
    decreases |items|
  {
    if items != [] {
      CheckItemsFailsAtFirst(products, items[..|items| - 1]);
    }
  }

  /** The running total is what the items are worth at the prices read during
      validation. */
  lemma {:induction false} TotalIsOrderValue(products: map<int, Product>, items: seq<ItemInput>)
    requires CheckItems(products, items).Success?
    ensures forall i :: 0 <= i < |items| ==> items[i].productId in products
    ensures Total(CheckItems(products, items).value) == OrderValue(products, items)
    decreases |items|
  {
    if items != [] {
      var front := items[..|items| - 1];
      assert CheckItems(products, front).Success?;
      TotalIsOrderValue(products, front);
      var lines := CheckItems(products, items).value;
      assert lines[..|lines| - 1] == CheckItems(products, front).value;
    }
  }

  // ---------------------------------------------------------------------------
  // The stock decrement

  /** After the stock loop every product has lost exactly the quantity ordered of
      it, and nothing else about any product has changed. */
  lemma {:induction false} DecrementTakesOrdered(products: map<int, Product>, items: seq<ItemInput>)
    ensures Decrement(products, items).Keys == products.Keys
    ensures forall id :: id in products ==>
      Decrement(products, items)[id] == products[id].(stock := products[id].stock - Ordered(items, id))
    decreases |items|
  {
    if items != [] {
      DecrementTakesOrdered(products, items[..|items| - 1]);
    }
  }

  /** With no product repeated, the quantity ordered of a product is that of its
      one line, or nothing. */
  lemma {:induction false} OrderedOfDistinct(items: seq<ItemInput>, id: int)
    requires DistinctProducts(items)
    ensures forall i :: 0 <= i < |items| && items[i].productId == id ==> Ordered(items, id) == items[i].quantity
    ensures (forall i :: 0 <= i < |items| ==> items[i].productId != id) ==> Ordered(items, id) == 0
    decreases |items|
  {
    if items != [] {
      var front := items[..|items| - 1];
      assert DistinctProducts(front);
      OrderedOfDistinct(front, id);
      var n := |items| - 1;
      if items[n].productId == id {
        assert forall i :: 0 <= i < n ==> front[i].productId != id;
      }
    }
  }

  // ---------------------------------------------------------------------------
  // The item insert

  /** The order id handed out next is not taken, and no item row points at it. */
  lemma NextOrderIdIsFresh(db: Db)
    requires Valid(db)
    ensures db.nextOrderId !in db.orders
    ensures forall k :: k in db.items ==> k.0 != db.nextOrderId
  {
  }

  /** For a fresh order id the insert of its rows goes through exactly when the
      items name each product once: a repeated product hits the composite key. */
  lemma FreshOrderRowsInsertIff(table: map<ItemKey, OrderItem>, id: int, products: map<int, Product>, items: seq<ItemInput>)
    requires forall k :: k in table ==> k.0 != id
    requires CheckItems(products, items).Success?
    ensures InsertRows(table, ItemRows(id, CheckItems(products, items).value)).Success?
      <==> DistinctProducts(items)
  {
    var rows := ItemRows(id, CheckItems(products, items).value);
    InsertRowsSucceedsIff(table, rows);
    assert forall i :: 0 <= i < |rows| ==> KeyOf(rows[i]) == (id, items[i].productId as int);
    assert table.Keys !! KeysOf(rows);
    assert NoRepeatedKey(rows) <==> DistinctProducts(items);
  }

  // ---------------------------------------------------------------------------
  // The whole workflow

  /** When `createOrder` commits and when it fails, and with which error: a
      user id too wide for its column, then a missing user, then the first item
      that fails the pre-check, then an exhausted order id sequence, then a
      total too wide for its column, then an empty item list (whose item rows
      the query builder refuses to insert), then a product named twice. */
  lemma PlaceOutcome(db: Db, input: CreateOrderInput, now: int)
    requires Valid(db)
    ensures !Int32(input.userId) ==> Place(db, input, now) == Failure(IntegerOutOfRange(input.userId))
    ensures Int32(input.userId) && input.userId !in db.users ==>
      Place(db, input, now) == Failure(Missing(UserRow, input.userId))
    ensures var f := FirstFailing(db.products, input.items);
      (input.userId in db.users && f < |input.items|) ==>
        Place(db, input, now) == Failure(CheckError(db.products, input.items[f]))
    ensures (input.userId in db.users && FirstFailing(db.products, input.items) == |input.items|) ==>
      && (db.nextOrderId > MaxInt32 ==> Place(db, input, now) == Failure(SequenceExhausted(OrderRow)))
      && (db.nextOrderId <= MaxInt32 && OrderValue(db.products, input.items) >= NumericLimit ==>
            Place(db, input, now) == Failure(NumericOverflow(OrderValue(db.products, input.items))))
    ensures input.userId in db.users && input.items == [] && db.nextOrderId <= MaxInt32 ==>
      Place(db, input, now) == Failure(EmptyInsert)
    ensures Place(db, input, now).Success? <==>
      && input.userId in db.users
      && input.items != []
      && FirstFailing(db.products, input.items) == |input.items|
      && db.nextOrderId <= MaxInt32
      && OrderValue(db.products, input.items) < NumericLimit
      && DistinctProducts(input.items)
    ensures (&& Place(db, input, now).Failure? && input.userId in db.users
             && input.items != []
             && FirstFailing(db.products, input.items) == |input.items|
             && db.nextOrderId <= MaxInt32
             && OrderValue(db.products, input.items) < NumericLimit) ==>
      Place(db, input, now).error.DuplicateKey?
  {
    CheckItemsFailsAtFirst(db.products, input.items);
    if input.userId in db.users {
      assert Int32(input.userId);
      var c := CheckItems(db.products, input.items);
      if c.Success? {
        TotalIsOrderValue(db.products, input.items);
        if db.nextOrderId <= MaxInt32 {
          NextOrderIdIsFresh(db);
          FreshOrderRowsInsertIff(db.items, db.nextOrderId, db.products, input.items);
          if Total(c.value) < NumericLimit {
            var ins := InsertRows(db.items, ItemRows(db.nextOrderId, c.value));
            if ins.Failure? {
              InsertRowsRefusesDuplicate(db.items, ItemRows(db.nextOrderId, c.value));
              assert Place(db, input, now) == Failure(ins.error);
            }
          }
        }
      }
    }
  }

  /** The shape of a committed placement, for the lemmas below. */
  lemma PlaceCommitted(db: Db, input: CreateOrderInput, now: int)
    requires Place(db, input, now).Success?
    ensures input.userId in db.users
    ensures CheckItems(db.products, input.items).Success?
    ensures var lines := CheckItems(db.products, input.items).value;
      var id := db.nextOrderId;
      && id <= MaxInt32 && Total(lines) < NumericLimit
      && InsertRows(db.items, ItemRows(id, lines)).Success?
      && Place(db, input, now).value == Placed(db.(
           orders := db.orders[id := Order(id, input.userId, Total(lines), input.status.GetOr(Pending), now, now)],
           items := InsertRows(db.items, ItemRows(id, lines)).value,
           products := Decrement(db.products, input.items),
           nextOrderId := id + 1), id)
  {
  }

  /** The header of a committed order: the next serial id, the user, the status
      (pending when none was given) and, as its total, the sum of price times
      quantity over the items; no other order changes. */
  lemma PlaceStoresHeader(db: Db, input: CreateOrderInput, now: int)
    requires Valid(db)
    requires Place(db, input, now).Success?
    ensures forall i :: 0 <= i < |input.items| ==> input.items[i].productId in db.products
    ensures var p := Place(db, input, now).value;
      && p.orderId == db.nextOrderId && p.orderId !in db.orders
      && p.db.users == db.users
      && p.db.orders == db.orders[p.orderId := Order(p.orderId, input.userId,
           OrderValue(db.products, input.items), input.status.GetOr(Pending), now, now)]
  {
    PlaceCommitted(db, input, now);
    TotalIsOrderValue(db.products, input.items);
    NextOrderIdIsFresh(db);
  }

  /** The item rows of a committed order: one per input item, carrying the new
      order's id, the product, the quantity and the price read during
      validation, and no others; every earlier row is kept as it was. */
  lemma PlaceStoresItems(db: Db, input: CreateOrderInput, now: int)
    requires Valid(db)
    requires Place(db, input, now).Success?
    ensures forall i :: 0 <= i < |input.items| ==> input.items[i].productId in db.products
    ensures var p := Place(db, input, now).value; var id := p.orderId;
      && (forall i :: 0 <= i < |input.items| ==>
            var pid := input.items[i].productId as int;
            (id, pid) in p.db.items
            && p.db.items[(id, pid)] == OrderItem(id, pid, input.items[i].quantity, db.products[pid].price))
      && (forall k :: k in p.db.items ==> k in db.items || (k.0 == id && k.1 in ProductIds(input.items)))
      && (forall k :: k in db.items ==> k.0 != id && k in p.db.items && p.db.items[k] == db.items[k])
  {
    PlaceCommitted(db, input, now);
    NextOrderIdIsFresh(db);
    var lines := CheckItems(db.products, input.items).value;
    var id := db.nextOrderId;
    var rows := ItemRows(id, lines);
    assert forall i :: 0 <= i < |rows| ==> KeyOf(rows[i]) == (id, input.items[i].productId as int);
    forall k | k in KeysOf(rows)
      ensures k.0 == id && k.1 in ProductIds(input.items)
    {
      var i :| 0 <= i < |rows| && KeyOf(rows[i]) == k;
      assert input.items[i].productId in ProductIds(input.items);
    }
  }

  /** The ids of the products the items name. */
  function ProductIds(items: seq<ItemInput>): set<int> {
    set i | 0 <= i < |items| :: items[i].productId as int
  }

  /** The stock of a committed order: each ordered product has lost exactly the
      quantity of its line; every other product, and every other column, is as it
      was. */
  lemma PlaceTakesStock(db: Db, input: CreateOrderInput, now: int)
    requires Valid(db)
    requires Place(db, input, now).Success?
    ensures var p := Place(db, input, now).value;
      && p.db.products.Keys == db.products.Keys
      && (forall i :: 0 <= i < |input.items| ==>
            var pid := input.items[i].productId as int;
            pid in db.products
            && p.db.products[pid] == db.products[pid].(stock := db.products[pid].stock - input.items[i].quantity))
      && (forall pid :: pid in db.products && pid !in ProductIds(input.items) ==>
            p.db.products[pid] == db.products[pid])
  {
    PlaceCommitted(db, input, now);
    NextOrderIdIsFresh(db);
    FreshOrderRowsInsertIff(db.items, db.nextOrderId, db.products, input.items);
    DecrementDistinct(db.products, input.items);
  }

  /** With each product named once, the stock loop takes each line's quantity
      off its own product and leaves the other products alone. */
  lemma DecrementDistinct(products: map<int, Product>, items: seq<ItemInput>)
    requires DistinctProducts(items)
    ensures forall i :: 0 <= i < |items| && items[i].productId in products ==>
      var pid := items[i].productId as int;
      Decrement(products, items)[pid] == products[pid].(stock := products[pid].stock - items[i].quantity)
    ensures forall pid :: pid in products && pid !in ProductIds(items) ==>
      Decrement(products, items)[pid] == products[pid]
  {
    DecrementTakesOrdered(products, items);
    forall i | 0 <= i < |items|
      ensures Ordered(items, items[i].productId) == items[i].quantity
    {
      OrderedOfDistinct(items, items[i].productId);
    }
    forall pid | pid in products && pid !in ProductIds(items)
      ensures Ordered(items, pid) == 0
    {
      forall i | 0 <= i < |items|
        ensures items[i].productId != pid
      {
        assert items[i].productId in ProductIds(items);
      }
      OrderedOfDistinct(items, pid);
    }
  }

  /** A committed placement keeps every table constraint: in particular no order
      item refers to a missing order or product, and no stock goes negative. */
  lemma PlaceKeepsValid(db: Db, input: CreateOrderInput, now: int)
    requires Valid(db)
    requires Place(db, input, now).Success?
    ensures Valid(Place(db, input, now).value.db)
  {
    PlaceKeepsUsersAndOrders(db, input, now);
    PlaceKeepsProducts(db, input, now);
    PlaceKeepsItems(db, input, now);
  }

  lemma PlaceKeepsUsersAndOrders(db: Db, input: CreateOrderInput, now: int)
    requires Valid(db)
    requires Place(db, input, now).Success?
    ensures UsersOk(Place(db, input, now).value.db)
    ensures OrdersOk(Place(db, input, now).value.db)
  {
    PlaceCommitted(db, input, now);
    PlaceStoresHeader(db, input, now);
  }

  lemma PlaceKeepsProducts(db: Db, input: CreateOrderInput, now: int)
    requires Valid(db)
    requires Place(db, input, now).Success?
    ensures ProductsOk(Place(db, input, now).value.db)
  {
    var p := Place(db, input, now).value;
    PlaceCommitted(db, input, now);
    PlaceTakesStock(db, input, now);
    forall pid | pid in p.db.products
      ensures p.db.products[pid].id == pid && 0 < pid < p.db.nextProductId
      ensures ProductRowOk(p.db.products[pid])
    {
      if pid in ProductIds(input.items) {
        var i :| 0 <= i < |input.items| && input.items[i].productId == pid;
        assert !Fails(db.products, input.items[i]);
      }
    }
  }

  lemma PlaceKeepsItems(db: Db, input: CreateOrderInput, now: int)
    requires Valid(db)
    requires Place(db, input, now).Success?
    ensures ItemsOk(Place(db, input, now).value.db)
  {
    var p := Place(db, input, now).value;
    PlaceCommitted(db, input, now);
    PlaceStoresHeader(db, input, now);
    PlaceStoresItems(db, input, now);
    PlaceTakesStock(db, input, now);
    forall k | k in p.db.items
      ensures p.db.items[k].orderId == k.0 && p.db.items[k].productId == k.1
      ensures k.0 in p.db.orders && k.1 in p.db.products
      ensures Int32(p.db.items[k].quantity) && p.db.items[k].priceAtPurchase < NumericLimit
    {
      if k !in db.items {
        var i :| 0 <= i < |input.items| && input.items[i].productId == k.1;
        var pid := input.items[i].productId as int;
        assert k == (p.orderId, pid);
        assert p.db.items[k] == OrderItem(p.orderId, pid, input.items[i].quantity, db.products[pid].price);
        assert !Fails(db.products, input.items[i]) && ProductRowOk(db.products[pid]);
      }
    }
  }

  // ---------------------------------------------------------------------------
  // Why the composite key matters

  /** A shop with one customer and one lamp, five in stock at 10.00. */
  function LampShop(): (db: Db)
    ensures Valid(db)
  {
    Db(map[1 := User(1, "ann@example.com", "hashed_secret12", "Ann", Customer, 0, 0)],
       map[1 := Product(1, "lamp", None, 1000, 5, 0, 0)], map[], map[], 2, 2, 1)
  }

  /** The lamp, three at a time, on two lines. */
  function TwoLinesOfThree(): seq<ItemInput> {
    [ItemInput(1, 3), ItemInput(1, 3)]
  }

  /** Each line of three passes the pre-check against the stock of five. */
  lemma TwoLinesPassPreCheck()
    ensures CheckItems(LampShop().products, TwoLinesOfThree()) == Success([Line(1, 3, 1000), Line(1, 3, 1000)])
  {
    var products := LampShop().products;
    var items := TwoLinesOfThree();
    var line := Line(1, 3, 1000);
    assert items[..1] == [ItemInput(1, 3)] && items[..1][..0] == [];
    assert CheckItems(products, items[..1][..0]) == Success([]);
    assert [] + [line] == [line] && [line] + [line] == [line, line];
    assert CheckItems(products, items[..1]) == Success([line]);
  }

  /** Taking both lines off the stock would leave it at minus one. */
  lemma TwoLinesOverdraw()
    ensures Decrement(LampShop().products, TwoLinesOfThree())[1].stock == -1
  {
    var products := LampShop().products;
    var items := TwoLinesOfThree();
    assert items[..1] == [ItemInput(1, 3)] && items[..1][..0] == [];
    assert Decrement(products, items[..1])[1].stock == 2;
  }

  /** The pre-check alone does not keep stock from going negative: an order that
      names a product twice passes it line by line against the original stock,
      and the unconditional decrements would overdraw. The composite key of
      order_items is what refuses it, before any stock changes. */
  lemma PreCheckAloneAllowsOverdraw()
    ensures CheckItems(LampShop().products, TwoLinesOfThree()).Success?
    ensures Decrement(LampShop().products, TwoLinesOfThree())[1].stock < 0
    ensures Place(LampShop(), CreateOrderInput(1, TwoLinesOfThree(), None), 0) == Failure(DuplicateKey(1, 1))
  {
    TwoLinesPassPreCheck();
    TwoLinesOverdraw();
    var line := Line(1, 3, 1000);
    var row := OrderItem(1, 1, 3, 1000);
    var rows := ItemRows(1, [line, line]);
    assert rows == [row, row];
    assert rows[..1] == [row] && rows[..1][..0] == [];
    assert InsertRows(map[], rows[..1][..0]) == Success(map[]);
    assert InsertRows(map[], rows[..1]) == Success(map[(1, 1) := row]);
    assert [line, line][..1] == [line] && [line][..0] == [];
    assert Total([line]) == 3000;
    assert Total([line, line]) == 6000;
  }
}
