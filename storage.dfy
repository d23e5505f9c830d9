/** The database the repositories share, as one object whose tables the
    operations change in place. `Snapshot` reads the tables out as a value, so
    that what an operation does can be stated as a function of the tables
    before it. */
module Storage {
  import opened Rows
  import Tables

  class Store {
    var users: map<int, User>
    var products: map<int, Product>
    var orders: map<int, Order>
    var items: map<ItemKey, OrderItem>
    var nextUserId: int
    var nextProductId: int
    var nextOrderId: int

    function Snapshot(): (db: Tables.Db)
      reads this
      ensures db.users == users && db.products == products && db.orders == orders && db.items == items
    {
      Tables.Db(users, products, orders, items, nextUserId, nextProductId, nextOrderId)
    }

    ghost predicate Valid()
      reads this
    {
      Tables.Valid(Snapshot())
    }

    /** A freshly migrated database: every table empty, every serial at 1. */
    constructor ()
      ensures Valid()
      ensures Snapshot() == Tables.Empty()
    {
      users := map[];
      products := map[];
      orders := map[];
      items := map[];
      nextUserId := 1;
      nextProductId := 1;
      nextOrderId := 1;
    }

    /** Makes the tables those of `db` (a committed statement or transaction). */
    method Commit(db: Tables.Db)
      modifies this
      ensures Snapshot() == db
    {
      users := db.users;
      products := db.products;
      orders := db.orders;
      items := db.items;
      nextUserId := db.nextUserId;
      nextProductId := db.nextProductId;
      nextOrderId := db.nextOrderId;
    }
  }
}
