/** The request schemas of the order module: the create and update bodies and the
    list query. A parse either rejects the request (400) or yields the typed input
    the service works on, with defaults applied. JSON numbers are integers here. */
module OrderSchema {
  import opened Wrappers
  import opened Rows
  import opened Numbers
  import Params

  datatype ItemBody = ItemBody(productId: int, quantity: int)
  datatype CreateOrderBody = CreateOrderBody(userId: int, items: seq<ItemBody>, status: Option<string>)
  datatype UpdateOrderBody = UpdateOrderBody(status: Option<string>)

  datatype ItemInput = ItemInput(productId: Positive, quantity: Positive)
  datatype CreateOrderInput = CreateOrderInput(userId: Positive, items: seq<ItemInput>, status: Option<Status>)
  datatype UpdateOrderInput = UpdateOrderInput(status: Option<Status>)
  datatype ListOrdersQuery = ListOrdersQuery(limit: int, offset: nat, userId: Option<Positive>, status: Option<Status>)

  function StatusName(s: Status): string {
    match s
    case Pending => "pending"
    case Paid => "paid"
    case Shipped => "shipped"
    case Delivered => "delivered"
    case Cancelled => "cancelled"
  }

  /** `z.enum(['pending', 'paid', 'shipped', 'delivered', 'cancelled'])` */
  function ParseStatus(text: string): (r: Option<Status>)
    ensures r.Some? ==> StatusName(r.value) == text
    ensures r.None? ==> forall s: Status :: StatusName(s) != text
  {
    if text == "pending" then Some(Pending)
    else if text == "paid" then Some(Paid)
    else if text == "shipped" then Some(Shipped)
    else if text == "delivered" then Some(Delivered)
    else if text == "cancelled" then Some(Cancelled)
    else None
  }

  /** `orderItemSchema`: both fields are positive integers. */
  predicate ValidItem(b: ItemBody) {
    b.productId > 0 && b.quantity > 0
  }

  predicate ValidStatus(text: Option<string>) {
    text.None? || ParseStatus(text.value).Some?
  }

  /** `createOrderSchema`: a positive user id, at least one valid item, and a
      status from the enum that defaults to pending. */
  function ParseCreateOrder(b: CreateOrderBody): (r: Result<CreateOrderInput>)
    ensures r.Success? <==>
      b.userId > 0 && |b.items| >= 1 && (forall i :: 0 <= i < |b.items| ==> ValidItem(b.items[i]))
      && ValidStatus(b.status)
    ensures r.Success? ==>
      && r.value.userId == b.userId
      && |r.value.items| == |b.items|
      && (forall i :: 0 <= i < |b.items| ==>
            r.value.items[i].productId == b.items[i].productId
            && r.value.items[i].quantity == b.items[i].quantity)
    ensures r.Success? && b.status.None? ==> r.value.status == Some(Pending)
    ensures r.Success? && b.status.Some? ==> r.value.status.Some? && StatusName(r.value.status.value) == b.status.value
  {
    if b.userId <= 0 then Failure(Invalid("userId"))
    else if |b.items| == 0 then Failure(Invalid("items"))
    else if !(forall i :: 0 <= i < |b.items| ==> ValidItem(b.items[i])) then Failure(Invalid("items"))
    else if !ValidStatus(b.status) then Failure(Invalid("status"))
    else
      var items := seq(|b.items|, i requires 0 <= i < |b.items| =>
        ItemInput(b.items[i].productId, b.items[i].quantity));
      var status := if b.status.None? then Pending else ParseStatus(b.status.value).value;
      Success(CreateOrderInput(b.userId, items, Some(status)))
  }

  /** `updateOrderSchema`: only an optional status from the same enum. */
  function ParseUpdateOrder(b: UpdateOrderBody): (r: Result<UpdateOrderInput>)
    ensures r.Success? <==> ValidStatus(b.status)
    ensures r.Success? ==> (r.value.status.Some? <==> b.status.Some?)
    ensures r.Success? && b.status.Some? ==> StatusName(r.value.status.value) == b.status.value
  {
    if !ValidStatus(b.status) then Failure(Invalid("status"))
    else if b.status.None? then Success(UpdateOrderInput(None))
    else Success(UpdateOrderInput(ParseStatus(b.status.value)))
  }

  /** `listOrdersQuerySchema`: the page bounds, an optional positive user id and an
      optional status. */
  function ParseListOrdersQuery(limit: Option<string>, offset: Option<string>,
                                userId: Option<string>, status: Option<string>): (r: Result<ListOrdersQuery>)
    ensures r.Success? ==> 1 <= r.value.limit <= Params.MaxLimit
    ensures r.Success? && limit.None? ==> r.value.limit == Params.DefaultLimit
    ensures r.Success? && offset.None? ==> r.value.offset == 0
    ensures r.Success? ==> (r.value.userId.Some? <==> userId.Some?)
    ensures r.Success? ==> (r.value.status.Some? <==> status.Some?)
    ensures r.Success? && status.Some? ==> StatusName(r.value.status.value) == status.value
    ensures r.Success? <==>
      && Params.ParseLimit(limit).Success? && Params.ParseOffset(offset).Success?
      && (userId.Some? ==> Params.ParseId(userId.value).Success?) && ValidStatus(status)
    ensures r.Success? ==>
      && r.value.limit == Params.ParseLimit(limit).value
      && r.value.offset == Params.ParseOffset(offset).value
      && (userId.Some? ==> r.value.userId == Some(Params.ParseId(userId.value).value))
    ensures Params.ParseLimit(limit).Failure? ==> r == Failure(Invalid("limit"))
  {
    match Params.ParseLimit(limit)
    case Failure(e) => Failure(e)
    case Success(l) =>
      match Params.ParseOffset(offset)
      case Failure(e) => Failure(e)
      case Success(o) =>
        if userId.Some? && Params.ParseId(userId.value).Failure? then Failure(Invalid("userId"))
        else if !ValidStatus(status) then Failure(Invalid("status"))
        else
          var u := if userId.Some? then Some(Params.ParseId(userId.value).value) else None;
          var s := if status.Some? then ParseStatus(status.value) else None;
          Success(ListOrdersQuery(l, o, u, s))
  }

  lemma StatusNamesRoundTrip(s: Status)
    ensures ParseStatus(StatusName(s)) == Some(s)
  {
  }
}
