/** The first version of the shop, on SQLite: users, products with a price and
    an optional description, and orders of one product each (user, product,
    quantity). Prices are kept in integer cents. Ids are SQLite autoincrement
    keys, handed out from a counter that never goes back. */
module LegacyTables {
  import opened Wrappers
  import opened Numbers

  datatype User = User(id: int, name: string, email: string, createdAt: int)

  datatype Product = Product(id: int, name: string, price: nat, description: Option<string>, createdAt: int)

  datatype Order = Order(id: int, userId: int, productId: int, quantity: int, createdAt: int)

  datatype Db = Db(
    users: map<int, User>,
    products: map<int, Product>,
    orders: map<int, Order>,
    nextProductId: int,
    nextOrderId: int)

  /** A table written by a statement, with the row the statement returns. */
  datatype Written<T> = Written(db: Db, row: T)

  /** Every row is stored under its own id, the autoincrement counters are
      past every id in use, and every order's user and product exist (the
      references of orders.user_id and orders.product_id, which the driver's
      SQLite build enforces). */
  predicate Consistent(db: Db) {
    && db.nextProductId >= 1 && db.nextOrderId >= 1
    && (forall id :: id in db.users ==> db.users[id].id == id)
    && (forall id :: id in db.products ==> db.products[id].id == id && 0 < id < db.nextProductId)
    && (forall id :: id in db.orders ==>
          && db.orders[id].id == id && 0 < id < db.nextOrderId
          && db.orders[id].userId in db.users && db.orders[id].productId in db.products)
  }

  /** Whether some order refers to product `id`. */
  predicate ProductOrdered(db: Db, id: int) {
    exists o :: o in db.orders && db.orders[o].productId == id
  }

  function Empty(): (db: Db)
    ensures Consistent(db)
  {
    Db(map[], map[], map[], 1, 1)
  }

  /** How the handlers read a `:id` path parameter: `parseInt(id, 10)`, and 400
      when that is NaN. Whatever follows the digits is ignored. */
  function ParseRowId(text: string): (r: Result<int>)
    ensures r.Success? <==> ParseInt(text).Some?
    ensures r.Success? ==> Some(r.value) == ParseInt(text)
    ensures r.Failure? ==> r.error == Invalid("id")
  {
    match ParseInt(text)
    case None => Failure(Invalid("id"))
    case Some(n) => Success(n)
  }

  /** The decimal spelling of an id reads back as that id, also with a
      non-digit suffix such as ".5" or "abc" after it. */
  lemma ParseRowIdOfDigits(n: nat, rest: string)
    requires rest == [] || !IsDigit(rest[0])
    ensures ParseRowId(NatToDigits(n) + rest) == Success(n)
  {
    ParseIntOfDigits(n, rest);
  }

  /** A path parameter that does not start with a digit, after white space and
      an optional sign, is refused. */
  lemma ParseRowIdRefusesNonNumber(text: string)
    requires var t := TrimStart(text);
      var body := if |t| > 0 && (t[0] == '-' || t[0] == '+') then t[1..] else t;
      body == [] || !IsDigit(body[0])
    ensures ParseRowId(text) == Failure(Invalid("id"))
  {
  }

  /** The database as an object whose tables the handlers change in place. */
  class Store {
    var users: map<int, User>
    var products: map<int, Product>
    var orders: map<int, Order>
    var nextProductId: int
    var nextOrderId: int

    function Snapshot(): (db: Db)
      reads this
      ensures db.users == users && db.products == products && db.orders == orders
      ensures db.nextProductId == nextProductId && db.nextOrderId == nextOrderId
    {
      Db(users, products, orders, nextProductId, nextOrderId)
    }

    ghost predicate Valid()
      reads this
    {
      Consistent(Snapshot())
    }

    constructor ()
      ensures Valid()
      ensures Snapshot() == Empty()
    {
      users := map[];
      products := map[];
      orders := map[];
      nextProductId := 1;
      nextOrderId := 1;
    }

    /** Makes the tables those of `db` (one committed statement). */
    method Commit(db: Db)
      modifies this
      ensures Snapshot() == db
    {
      users := db.users;
      products := db.products;
      orders := db.orders;
      nextProductId := db.nextProductId;
      nextOrderId := db.nextOrderId;
    }
  }
}
