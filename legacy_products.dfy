/** The product routes of the SQLite version: list, read, create, update and
    delete, with the price given as a decimal string of at most two decimals and
    stored in cents. */
module LegacyProducts {
  import opened Wrappers
  import opened LegacyTables
  import Tables
  import ProductSchema

  /** A request body as JSON: each field is absent (`None`) or a string. */
  datatype ProductBody = ProductBody(name: Option<string>, price: Option<string>, description: Option<string>)

  datatype NewProduct = NewProduct(name: string, price: nat, description: Option<string>)

  datatype ProductChanges = ProductChanges(name: Option<string>, price: Option<nat>, description: Option<string>)

  /** `z.string().regex(/^\d+(\.\d{1,2})?$/)`, read as cents. */
  predicate GoodPrice(text: string) {
    ProductSchema.PriceFormat(text)
  }

  /** `createProductSchema`: a non-empty name and a well-formed price are
      required, the description is optional. */
  function ParseNewProduct(b: ProductBody): (r: Result<NewProduct>)
    ensures r.Success? <==> b.name.Some? && |b.name.value| >= 1 && b.price.Some? && GoodPrice(b.price.value)
    ensures r.Success? ==>
      && r.value.name == b.name.value
      && r.value.description == b.description
      && ProductSchema.ParsePrice(b.price.value) == Some(r.value.price)
    ensures r.Failure? ==> r.error.Invalid?
  {
    if b.name.None? || |b.name.value| == 0 then Failure(Invalid("name"))
    else
      ProductSchema.ParsePriceAcceptsFormat(b.price.GetOr(""));
      if b.price.None? || ProductSchema.ParsePrice(b.price.value).None? then Failure(Invalid("price"))
      else Success(NewProduct(b.name.value, ProductSchema.ParsePrice(b.price.value).value, b.description))
  }

  /** `updateProductSchema`: every field optional, and a name or a price that is
      given must meet the create rules. */
  function ParseProductChanges(b: ProductBody): (r: Result<ProductChanges>)
    ensures r.Success? <==>
      (b.name.Some? ==> |b.name.value| >= 1) && (b.price.Some? ==> GoodPrice(b.price.value))
    ensures r.Success? ==>
      && r.value.name == b.name
      && r.value.description == b.description
      && (r.value.price.Some? <==> b.price.Some?)
      && (b.price.Some? ==> ProductSchema.ParsePrice(b.price.value) == r.value.price)
    ensures r.Failure? ==> r.error.Invalid?
  {
    if b.name.Some? && |b.name.value| == 0 then Failure(Invalid("name"))
    else
      ProductSchema.ParsePriceAcceptsFormat(b.price.GetOr(""));
      if b.price.None? then Success(ProductChanges(b.name, None, b.description))
      else if ProductSchema.ParsePrice(b.price.value).None? then Failure(Invalid("price"))
      else Success(ProductChanges(b.name, ProductSchema.ParsePrice(b.price.value), b.description))
  }

  /** A price the routes send back in two-decimal form is accepted again and
      reads back as the same number of cents. */
  lemma PriceRoundTrip(b: ProductBody, cents: nat)
    requires b.name.Some? && |b.name.value| >= 1
    requires b.price == Some(ProductSchema.FormatCents(cents))
    ensures ParseNewProduct(b).Success? && ParseNewProduct(b).value.price == cents
  {
    ProductSchema.FormatCentsRoundTrip(cents);
  }

  /** `GET /products`: every product in the order the database scans them. */
  function ListProducts(db: Db, scan: seq<int>): (r: seq<Product>)
    requires Tables.IsScan(db.products, scan)
    ensures |r| == |scan|
    ensures forall i :: 0 <= i < |r| ==> r[i] == db.products[scan[i]]
    ensures forall id :: id in db.products ==> db.products[id] in r
  {
    var r := Tables.RowsInScan(db.products, scan);
    forall id | id in db.products ensures db.products[id] in r {
      var i :| 0 <= i < |scan| && scan[i] == id;
      assert r[i] == db.products[id];
    }
    r
  }

  /** `GET /products/:id`: 400 for an id that is not a number, 404 for no such
      product. */
  function GetProduct(db: Db, idText: string): (r: Result<Product>)
    ensures ParseRowId(idText).Failure? ==> r == Failure(Invalid("id"))
    ensures ParseRowId(idText).Success? ==>
      var id := ParseRowId(idText).value;
      && (id !in db.products ==> r == Failure(NotFound(ProductRow, id)))
      && (id in db.products ==> r == Success(db.products[id]))
  {
    match ParseRowId(idText)
    case Failure(e) => Failure(e)
    case Success(id) =>
      if id in db.products then Success(db.products[id]) else Failure(NotFound(ProductRow, id))
  }

  /** `POST /products`: a malformed body is a 400 that writes nothing; otherwise
      one row with the next id and the fields of the request. */
  function CreateProductRow(db: Db, b: ProductBody, now: int): (r: Result<Written<Product>>)
    ensures r.Success? <==> ParseNewProduct(b).Success?
    ensures r.Failure? ==> r.error == ParseNewProduct(b).error
    ensures r.Success? ==>
      var p := r.value.row;
      var input := ParseNewProduct(b).value;
      && p == Product(db.nextProductId, input.name, input.price, input.description, now)
      && r.value.db == db.(products := db.products[p.id := p], nextProductId := p.id + 1)
  {
    match ParseNewProduct(b)
    case Failure(e) => Failure(e)
    case Success(input) =>
      var p := Product(db.nextProductId, input.name, input.price, input.description, now);
      Success(Written(db.(products := db.products[p.id := p], nextProductId := p.id + 1), p))
  }

  /** A created product gets an id no product had, keeps the tables consistent
      and reads back as written. */
  lemma CreateProductKeepsConsistent(db: Db, b: ProductBody, now: int)
    requires Consistent(db)
    requires CreateProductRow(db, b, now).Success?
    ensures var w := CreateProductRow(db, b, now).value;
      && w.row.id !in db.products
      && Consistent(w.db)
      && GetProduct(w.db, Numbers.NatToDigits(w.row.id)) == Success(w.row)
  {
    var w := CreateProductRow(db, b, now).value;
    ParseRowIdOfDigits(w.row.id, "");
    assert Numbers.NatToDigits(w.row.id) + "" == Numbers.NatToDigits(w.row.id);
  }

  /** The row `.set({ name, price, description })` writes: the fields given
      replace the stored ones, the others stay. */
  function Changed(p: Product, c: ProductChanges): (r: Product)
    ensures r.id == p.id && r.createdAt == p.createdAt
    ensures r.name == c.name.GetOr(p.name)
    ensures r.price == c.price.GetOr(p.price)
    ensures r.description == (if c.description.Some? then c.description else p.description)
  {
    p.(name := c.name.GetOr(p.name),
       price := c.price.GetOr(p.price),
       description := if c.description.Some? then c.description else p.description)
  }

  /** Applying the same changes twice is applying them once. */
  lemma ChangedIsIdempotent(p: Product, c: ProductChanges)
    ensures Changed(Changed(p, c), c) == Changed(p, c)
  {
  }

  predicate NoChanges(c: ProductChanges) {
    c.name.None? && c.price.None? && c.description.None?
  }

  /** `PUT /products/:id`. In this order: 400 for an id that is not a number,
      400 for a malformed body, 400 when the body sets nothing (the query
      builder refuses an empty SET), 404 when no product has the id; otherwise
      the given fields are written into that one row. */
  function UpdateProductRow(db: Db, idText: string, b: ProductBody): (r: Result<Written<Product>>)
    ensures r.Success? <==>
      && ParseRowId(idText).Success?
      && ParseProductChanges(b).Success?
      && !NoChanges(ParseProductChanges(b).value)
      && ParseRowId(idText).value in db.products
    ensures ParseRowId(idText).Failure? ==> r == Failure(Invalid("id"))
    ensures ParseRowId(idText).Success? && ParseProductChanges(b).Failure? ==> r == Failure(ParseProductChanges(b).error)
    ensures ParseRowId(idText).Success? && ParseProductChanges(b).Success? && !NoChanges(ParseProductChanges(b).value)
            && ParseRowId(idText).value !in db.products ==>
      r == Failure(NotFound(ProductRow, ParseRowId(idText).value))
    ensures r.Success? ==>
      var id := ParseRowId(idText).value;
      var p := Changed(db.products[id], ParseProductChanges(b).value);
      r.value == Written(db.(products := db.products[id := p]), p)
  {
    match ParseRowId(idText)
    case Failure(e) => Failure(e)
    case Success(id) =>
      match ParseProductChanges(b)
      case Failure(e) => Failure(e)
      case Success(c) =>
        if NoChanges(c) then Failure(Invalid("body"))
        else if id !in db.products then Failure(NotFound(ProductRow, id))
        else
          var p := Changed(db.products[id], c);
          Success(Written(db.(products := db.products[id := p]), p))
  }

  /** An update rewrites one product, leaves every other row alone and keeps
      the tables consistent. */
  lemma UpdateProductKeepsConsistent(db: Db, idText: string, b: ProductBody)
    requires Consistent(db)
    requires UpdateProductRow(db, idText, b).Success?
    ensures var w := UpdateProductRow(db, idText, b).value;
      && Consistent(w.db)
      && w.db.products.Keys == db.products.Keys
      && (forall other :: other in db.products && other != w.row.id ==> w.db.products[other] == db.products[other])
      && w.db.orders == db.orders && w.db.users == db.users
  {
  }

  /** `DELETE /products/:id`: 400 for an id that is not a number, 404 for no
      such product; the database refuses to delete a product an order refers
      to (the handler does not catch that error); otherwise that one row goes
      (204, no body). */
  function DeleteProductRow(db: Db, idText: string): (r: Result<Db>)
    ensures ParseRowId(idText).Failure? ==> r == Failure(Invalid("id"))
    ensures ParseRowId(idText).Success? ==>
      var id := ParseRowId(idText).value;
      && (id !in db.products ==> r == Failure(NotFound(ProductRow, id)))
      && (id in db.products && ProductOrdered(db, id) ==> r == Failure(ForeignKeyViolation(ProductRow, id)))
      && (r.Success? <==> id in db.products && !ProductOrdered(db, id))
      && (r.Success? ==> r.value == db.(products := db.products - {id}))
  {
    match ParseRowId(idText)
    case Failure(e) => Failure(e)
    case Success(id) =>
      if id !in db.products then Failure(NotFound(ProductRow, id))
      else if ProductOrdered(db, id) then Failure(ForeignKeyViolation(ProductRow, id))
      else Success(db.(products := db.products - {id}))
  }

  /** A deleted product is gone: reading it afterwards is a 404, and the tables
      stay consistent, since no order referred to it. */
  lemma DeletedProductIsGone(db: Db, idText: string)
    requires Consistent(db)
    requires DeleteProductRow(db, idText).Success?
    ensures Consistent(DeleteProductRow(db, idText).value)
    ensures GetProduct(DeleteProductRow(db, idText).value, idText) == Failure(NotFound(ProductRow, ParseRowId(idText).value))
  {
    var id := ParseRowId(idText).value;
    forall o | o in db.orders
      ensures db.orders[o].productId != id
    {
    }
  }

  method PostProduct(store: Store, b: ProductBody, now: int) returns (r: Result<Product>)
    requires store.Valid()
    modifies store
    ensures store.Valid()
    ensures var spec := CreateProductRow(old(store.Snapshot()), b, now);
      && (spec.Failure? ==> r == Failure(spec.error) && store.Snapshot() == old(store.Snapshot()))
      && (spec.Success? ==> r == Success(spec.value.row) && store.Snapshot() == spec.value.db)
  {
    var spec := CreateProductRow(store.Snapshot(), b, now);
    if spec.Failure? {
      r := Failure(spec.error);
    } else {
      CreateProductKeepsConsistent(store.Snapshot(), b, now);
      store.Commit(spec.value.db);
      r := Success(spec.value.row);
    }
  }

  method PutProduct(store: Store, idText: string, b: ProductBody) returns (r: Result<Product>)
    requires store.Valid()
    modifies store
    ensures store.Valid()
    ensures var spec := UpdateProductRow(old(store.Snapshot()), idText, b);
      && (spec.Failure? ==> r == Failure(spec.error) && store.Snapshot() == old(store.Snapshot()))
      && (spec.Success? ==> r == Success(spec.value.row) && store.Snapshot() == spec.value.db)
  {
    var spec := UpdateProductRow(store.Snapshot(), idText, b);
    if spec.Failure? {
      r := Failure(spec.error);
    } else {
      UpdateProductKeepsConsistent(store.Snapshot(), idText, b);
      store.Commit(spec.value.db);
      r := Success(spec.value.row);
    }
  }

  /** Success carries no body: the reply is 204. */
  method DeleteProduct(store: Store, idText: string) returns (r: Result<()>)
    requires store.Valid()
    modifies store
    ensures store.Valid()
    ensures var spec := DeleteProductRow(old(store.Snapshot()), idText);
      && (spec.Failure? ==> r == Failure(spec.error) && store.Snapshot() == old(store.Snapshot()))
      && (spec.Success? ==> r == Success(()) && store.Snapshot() == spec.value)
  {
    var spec := DeleteProductRow(store.Snapshot(), idText);
    if spec.Failure? {
      r := Failure(spec.error);
    } else {
      DeletedProductIsGone(store.Snapshot(), idText);
      store.Commit(spec.value);
      r := Success(());
    }
  }
}
