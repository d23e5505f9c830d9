/** The product routes: each handler validates its path parameter, then its body
    or query (400 on the first that fails, before any table is read), and then
    reads or writes the products table as the product service does. */
module ProductRoutes {
  import opened Wrappers
  import opened Rows
  import opened Tables
  import opened Storage
  import opened ProductSchema
  import opened ProductService
  import Params

  /** GET /api/products: a page of the products. */
  function ListProductsRoute(db: Db, scan: seq<int>, limit: Option<string>, offset: Option<string>): (r: Result<seq<Product>>)
    requires IsScan(db.products, scan)
    ensures r.Success? <==> Params.ParseLimit(limit).Success? && Params.ParseOffset(offset).Success?
    ensures Params.ParseLimit(limit).Failure? ==> r == Failure(Invalid("limit"))
    ensures r.Success? ==>
      && r.value == ListProducts(db, scan, Params.ParseLimit(limit).value, Params.ParseOffset(offset).value)
      && |r.value| <= Params.MaxLimit
  {
    match Params.ParseLimit(limit)
    case Failure(e) => Failure(e)
    case Success(l) =>
      match Params.ParseOffset(offset)
      case Failure(e) => Failure(e)
      case Success(o) => Success(ListProducts(db, scan, l, o))
  }

  /** GET /api/products/:id: 400 for a malformed id, 404 for an absent product. */
  function GetProductRoute(db: Db, idText: string): (r: Result<Product>)
    ensures Params.ParseId(idText).Failure? ==> r == Failure(Invalid("id"))
    ensures Params.ParseId(idText).Success? ==> r == GetProduct(db, Params.ParseId(idText).value)
  {
    match Params.ParseId(idText)
    case Failure(e) => Failure(e)
    case Success(id) => GetProduct(db, id)
  }

  /** POST /api/products: the body is validated, then the row is inserted with
      stock `body.stock || 0` (which is the parsed stock, already defaulted to 0). */
  method PostProduct(store: Store, body: CreateProductBody, now: int) returns (r: Result<Product>)
    requires store.Valid()
    modifies store
    ensures store.Valid()
    ensures ParseCreateProduct(body).Failure? ==>
      r == Failure(ParseCreateProduct(body).error) && store.Snapshot() == old(store.Snapshot())
    ensures ParseCreateProduct(body).Success? ==>
      var spec := InsertProduct(old(store.Snapshot()), ParseCreateProduct(body).value, now);
      && (spec.Failure? ==> r == Failure(spec.error) && store.Snapshot() == old(store.Snapshot()))
      && (spec.Success? ==> r == Success(spec.value.row) && store.Snapshot() == spec.value.db)
  {
    var input := ParseCreateProduct(body);
    if input.Failure? {
      r := Failure(input.error);
      return;
    }
    r := CreateProduct(store, input.value, now);
  }

  /** The route's own `UPDATE products SET ... WHERE id = $id RETURNING *`, with no
      read before it. Its parameters are bound before it runs: the SET values first,
      so a stock outside 32 bits is refused even when no row has that id, and then
      the id. A statement that returns no row is a 404; a price too wide for its
      column is refused as the row is written. */
  function UpdateStatement(db: Db, id: int, input: UpdateProductInput, now: int): (r: Result<Written<Product>>)
    ensures input.stock.Some? && !Int32(input.stock.value) ==> r == Failure(IntegerOutOfRange(input.stock.value))
    ensures input.stock.None? || Int32(input.stock.value) ==> r == UpdateProductRows(db, id, input, now)
    ensures r.Success? <==>
      && Int32(id) && id in db.products
      && ColumnError(input.price.GetOr(db.products[id].price),
                     if input.stock.Some? then input.stock.value else db.products[id].stock).None?
  {
    if input.stock.Some? && !Int32(input.stock.value) then Failure(IntegerOutOfRange(input.stock.value))
    else if !Int32(id) then Failure(IntegerOutOfRange(id))
    else if id !in db.products then Failure(NotFound(ProductRow, id))
    else
      var p := Updated(db.products[id], input, now);
      match ColumnError(p.price, p.stock)
      case Some(e) => Failure(e)
      case None => Success(Written(db.(products := db.products[id := p]), p))
  }

  /** The route's single statement and the service's read-then-update agree on
      every product that exists, and on every input whose stock fits; for an id no
      product has, a stock outside 32 bits is a database error for the route and a
      404 for the service. */
  lemma UpdateStatementVersusService(db: Db, id: int, input: UpdateProductInput, now: int)
    ensures Int32(id) && id in db.products ==> UpdateStatement(db, id, input, now) == UpdateProductRows(db, id, input, now)
    ensures input.stock.Some? && !Int32(input.stock.value) && Int32(id) && id !in db.products ==>
      && UpdateStatement(db, id, input, now) == Failure(IntegerOutOfRange(input.stock.value))
      && UpdateProductRows(db, id, input, now) == Failure(NotFound(ProductRow, id))
  {
    if input.stock.Some? && !Int32(input.stock.value) && Int32(id) && id in db.products {
      var p := Updated(db.products[id], input, now);
      assert ColumnError(p.price, p.stock) == Some(IntegerOutOfRange(input.stock.value));
    }
  }

  /** PUT /api/products/:id: id and body validated (400 on the first that fails,
      changing nothing); then the route's single UPDATE, whose row is the reply. */
  method PutProduct(store: Store, idText: string, body: UpdateProductBody, now: int) returns (r: Result<Product>)
    requires store.Valid()
    modifies store
    ensures store.Valid()
    ensures Params.ParseId(idText).Failure? ==> r == Failure(Invalid("id")) && store.Snapshot() == old(store.Snapshot())
    ensures Params.ParseId(idText).Success? && ParseUpdateProduct(body).Failure? ==>
      r == Failure(ParseUpdateProduct(body).error) && store.Snapshot() == old(store.Snapshot())
    ensures Params.ParseId(idText).Success? && ParseUpdateProduct(body).Success? ==>
      var spec := UpdateStatement(old(store.Snapshot()), Params.ParseId(idText).value, ParseUpdateProduct(body).value, now);
      && (spec.Failure? ==> r == Failure(spec.error) && store.Snapshot() == old(store.Snapshot()))
      && (spec.Success? ==> r == Success(spec.value.row) && store.Snapshot() == spec.value.db)
  {
    var id := Params.ParseId(idText);
    if id.Failure? {
      r := Failure(id.error);
      return;
    }
    var input := ParseUpdateProduct(body);
    if input.Failure? {
      r := Failure(input.error);
      return;
    }
    var stock := input.value.stock;
    if stock.Some? && !Int32(stock.value) {
      r := Failure(IntegerOutOfRange(stock.value));
      return;
    }
    r := UpdateProduct(store, id.value, input.value, now);
  }

  /** DELETE /api/products/:id: 400 for a malformed id, 404 for an absent product,
      refused while an order item refers to it. */
  method DeleteProductRoute(store: Store, idText: string) returns (r: Result<string>)
    requires store.Valid()
    modifies store
    ensures store.Valid()
    ensures Params.ParseId(idText).Failure? ==> r == Failure(Invalid("id")) && store.Snapshot() == old(store.Snapshot())
    ensures Params.ParseId(idText).Success? ==>
      var spec := DeleteProductOutcome(old(store.Snapshot()), Params.ParseId(idText).value);
      && (spec.Failure? ==> r == Failure(spec.error) && store.Snapshot() == old(store.Snapshot()))
      && (spec.Success? ==> r == Success("Product deleted successfully") && store.Snapshot() == spec.value)
  {
    var id := Params.ParseId(idText);
    if id.Failure? {
      r := Failure(id.error);
      return;
    }
    r := DeleteProduct(store, id.value);
  }
}
