/** The product service: read one product (404 when absent), create a product,
    update the fields a request supplies, and delete a product that no order
    item refers to. Each write is a function from the tables before to the
    tables after, and a method that carries it out on the store. */
module ProductService {
  import opened Wrappers
  import opened Rows
  import opened Tables
  import opened Storage
  import opened ProductSchema
  import Params

  /** `listProducts(limit, offset)`: a page of the products table in scan order. */
  function ListProducts(db: Db, scan: seq<int>, limit: nat, offset: nat): (r: seq<Product>)
    requires IsScan(db.products, scan)
    ensures |r| == if offset >= |scan| then 0 else if offset + limit <= |scan| then limit else |scan| - offset
    ensures forall i :: 0 <= i < |r| ==> offset + i < |scan| && r[i] == db.products[scan[offset + i]]
  {
    Params.Page(RowsInScan(db.products, scan), limit, offset)
  }

  /** `getProductById(id)`: the product, or 404; an id wider than the integer
      column is refused by the database. */
  function GetProduct(db: Db, id: int): (r: Result<Product>)
    ensures !Int32(id) ==> r == Failure(IntegerOutOfRange(id))
    ensures r.Success? <==> Int32(id) && id in db.products
    ensures Int32(id) && id !in db.products ==> r == Failure(NotFound(ProductRow, id))
    ensures r.Success? ==> r.value == db.products[id]
  {
    if !Int32(id) then Failure(IntegerOutOfRange(id))
    else if id in db.products then Success(db.products[id])
    else Failure(NotFound(ProductRow, id))
  }

  /** What the database refuses in a product row. The stock travels as a parameter
      typed by the integer column, so a stock outside 32 bits is refused when the
      statement's parameters are bound, before it runs; a price too wide for
      numeric(10, 2) is refused when the row is written. */
  function ColumnError(price: nat, stock: int): (r: Option<Error>)
    ensures r.None? <==> price < NumericLimit && Int32(stock)
    ensures !Int32(stock) ==> r == Some(IntegerOutOfRange(stock))
    ensures Int32(stock) && r.Some? ==> r == Some(NumericOverflow(price))
  {
    if !Int32(stock) then Some(IntegerOutOfRange(stock))
    else if price >= NumericLimit then Some(NumericOverflow(price))
    else None
  }

  /** `createProduct(input)`: one INSERT with the next serial id and the columns
      exactly as given. A stock outside 32 bits is refused as the parameters are
      bound; then the id is drawn, and then the price is converted. */
  function InsertProduct(db: Db, input: CreateProductInput, now: int): (r: Result<Written<Product>>)
    ensures r.Failure? <==> db.nextProductId > MaxInt32 || input.price >= NumericLimit || input.stock > MaxInt32
    ensures input.stock > MaxInt32 ==> r == Failure(IntegerOutOfRange(input.stock))
    ensures input.stock <= MaxInt32 && db.nextProductId > MaxInt32 ==> r == Failure(SequenceExhausted(ProductRow))
    ensures db.nextProductId <= MaxInt32 && r.Failure? ==> Some(r.error) == ColumnError(input.price, input.stock)
    ensures r.Success? ==>
      var p := r.value.row;
      && p.id == db.nextProductId
      && p.name == input.name && p.description == input.description
      && p.price == input.price && p.stock == input.stock
      && r.value.db.products == db.products[p.id := p]
      && r.value.db.users == db.users && r.value.db.orders == db.orders && r.value.db.items == db.items
  {
    if !Int32(input.stock) then Failure(IntegerOutOfRange(input.stock))
    else if db.nextProductId > MaxInt32 then Failure(SequenceExhausted(ProductRow))
    else
      match ColumnError(input.price, input.stock)
      case Some(e) => Failure(e)
      case None =>
        var p := Product(db.nextProductId, input.name, input.description, input.price, input.stock, now, now);
        Success(Written(db.(products := db.products[p.id := p], nextProductId := p.id + 1), p))
  }

  /** A created product gets an id no product had, keeps the tables consistent,
      and reads back as it was written. */
  lemma InsertProductKeepsValid(db: Db, input: CreateProductInput, now: int)
    requires Valid(db)
    requires InsertProduct(db, input, now).Success?
    ensures InsertProduct(db, input, now).value.row.id !in db.products
    ensures Valid(InsertProduct(db, input, now).value.db)
    ensures var w := InsertProduct(db, input, now).value;
      GetProduct(w.db, w.row.id) == Success(w.row)
  {
  }

  /** The row `update(id, data)` writes: each supplied field replaced, the others
      kept, and the update time set. */
  function Updated(p: Product, input: UpdateProductInput, now: int): (r: Product)
    ensures r.id == p.id && r.createdAt == p.createdAt && r.updatedAt == now
    ensures r.name == input.name.GetOr(p.name)
    ensures r.description == (if input.description.Some? then input.description else p.description)
    ensures r.price == input.price.GetOr(p.price)
    ensures r.stock == (if input.stock.Some? then input.stock.value else p.stock)
  {
    Product(p.id, input.name.GetOr(p.name),
            if input.description.Some? then input.description else p.description,
            input.price.GetOr(p.price),
            if input.stock.Some? then input.stock.value else p.stock,
            p.createdAt, now)
  }

  /** An update with no fields touches only the update time. */
  lemma EmptyUpdateTouchesOnlyTime(p: Product, now: int)
    ensures Updated(p, UpdateProductInput(None, None, None, None), now) == p.(updatedAt := now)
  {
  }

  /** `updateProduct(id, input)`: 404 for an absent product; otherwise the merged
      row, unless the database refuses one of its values. */
  function UpdateProductRows(db: Db, id: int, input: UpdateProductInput, now: int): (r: Result<Written<Product>>)
    ensures !Int32(id) ==> r == Failure(IntegerOutOfRange(id))
    ensures Int32(id) && id !in db.products ==> r == Failure(NotFound(ProductRow, id))
    ensures Int32(id) && id in db.products ==>
      var p := Updated(db.products[id], input, now);
      && (r.Failure? <==> ColumnError(p.price, p.stock).Some?)
      && (r.Success? ==> r.value == Written(db.(products := db.products[id := p]), p))
  {
    if !Int32(id) then Failure(IntegerOutOfRange(id))
    else if id !in db.products then Failure(NotFound(ProductRow, id))
    else
      var p := Updated(db.products[id], input, now);
      match ColumnError(p.price, p.stock)
      case Some(e) => Failure(e)
      case None => Success(Written(db.(products := db.products[id := p]), p))
  }

  /** An update changes that one product and no other row, and keeps the tables
      consistent. */
  lemma UpdateProductKeepsValid(db: Db, id: int, input: UpdateProductInput, now: int)
    requires Valid(db)
    requires UpdateProductRows(db, id, input, now).Success?
    ensures var w := UpdateProductRows(db, id, input, now).value;
      && Valid(w.db)
      && (forall other :: other in db.products && other != id ==> w.db.products[other] == db.products[other])
      && w.db.products.Keys == db.products.Keys
  {
  }

  /** `deleteProduct(id)`: 404 for an absent product; a product that some order
      item refers to is refused; otherwise only the product goes. */
  function DeleteProductOutcome(db: Db, id: int): (r: Result<Db>)
    ensures !Int32(id) ==> r == Failure(IntegerOutOfRange(id))
    ensures Int32(id) && id !in db.products ==> r == Failure(NotFound(ProductRow, id))
    ensures Int32(id) && id in db.products ==> r == DeleteProductRows(db, id)
  {
    if !Int32(id) then Failure(IntegerOutOfRange(id))
    else if id !in db.products then Failure(NotFound(ProductRow, id))
    else DeleteProductRows(db, id)
  }

  method CreateProduct(store: Store, input: CreateProductInput, now: int) returns (r: Result<Product>)
    requires store.Valid()
    modifies store
    ensures store.Valid()
    ensures var spec := InsertProduct(old(store.Snapshot()), input, now);
      && (spec.Failure? ==> r == Failure(spec.error) && store.Snapshot() == old(store.Snapshot()))
      && (spec.Success? ==> r == Success(spec.value.row) && store.Snapshot() == spec.value.db)
  {
    var spec := InsertProduct(store.Snapshot(), input, now);
    if spec.Failure? {
      r := Failure(spec.error);
    } else {
      InsertProductKeepsValid(store.Snapshot(), input, now);
      store.Commit(spec.value.db);
      r := Success(spec.value.row);
    }
  }

  method UpdateProduct(store: Store, id: int, input: UpdateProductInput, now: int) returns (r: Result<Product>)
    requires store.Valid()
    modifies store
    ensures store.Valid()
    ensures var spec := UpdateProductRows(old(store.Snapshot()), id, input, now);
      && (spec.Failure? ==> r == Failure(spec.error) && store.Snapshot() == old(store.Snapshot()))
      && (spec.Success? ==> r == Success(spec.value.row) && store.Snapshot() == spec.value.db)
  {
    var spec := UpdateProductRows(store.Snapshot(), id, input, now);
    if spec.Failure? {
      r := Failure(spec.error);
    } else {
      UpdateProductKeepsValid(store.Snapshot(), id, input, now);
      store.Commit(spec.value.db);
      r := Success(spec.value.row);
    }
  }

  method DeleteProduct(store: Store, id: int) returns (r: Result<string>)
    requires store.Valid()
    modifies store
    ensures store.Valid()
    ensures var spec := DeleteProductOutcome(old(store.Snapshot()), id);
      && (spec.Failure? ==> r == Failure(spec.error) && store.Snapshot() == old(store.Snapshot()))
      && (spec.Success? ==> r == Success("Product deleted successfully") && store.Snapshot() == spec.value)
  {
    var spec := DeleteProductOutcome(store.Snapshot(), id);
    if spec.Failure? {
      r := Failure(spec.error);
    } else {
      DeleteProductKeepsValid(store.Snapshot(), id);
      store.Commit(spec.value);
      r := Success("Product deleted successfully");
    }
  }
}
