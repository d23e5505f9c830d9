/** The path and query parameters shared by the order, product and user schemas:
    an id that must be a positive integer, and a page given by `limit` (an
    integer in 1..100, default 10) and `offset` (a non-negative integer, default 0).
    Each arrives as text and goes through `Number` before the integer checks. */
module Params {
  import opened Wrappers
  import opened Numbers
  import opened Rows

  const DefaultLimit: int := 10
  const MaxLimit: int := 100

  /** `id: z.string().transform(Number).pipe(z.number().int().positive())` */
  function ParseId(text: string): (r: Result<Positive>)
    ensures r.Success? <==> AllDigits(text) && DigitsValue(text) > 0
    ensures r.Success? ==> r.value == DigitsValue(text)
  {
    match DecimalNumber(text)
    case Some(n) => if n > 0 then Success(n) else Failure(Invalid("id"))
    case None => Failure(Invalid("id"))
  }

  /** `limit`: absent means "10"; otherwise an integer in 1..100. */
  function ParseLimit(text: Option<string>): (r: Result<int>)
    ensures r.Success? ==> 1 <= r.value <= MaxLimit
    ensures text.None? ==> r == Success(DefaultLimit)
    ensures text.Some? ==> (r.Success? <==> AllDigits(text.value) && 1 <= DigitsValue(text.value) <= MaxLimit)
    ensures text.Some? && r.Success? ==> r.value == DigitsValue(text.value)
    ensures r.Failure? ==> r.error == Invalid("limit")
  {
    if text.None? then Success(DefaultLimit)
    else
      var n := DecimalNumber(text.value);
      if n.Some? && 1 <= n.value <= MaxLimit then Success(n.value) else Failure(Invalid("limit"))
  }

  /** `offset`: absent means "0"; otherwise a non-negative integer. */
  function ParseOffset(text: Option<string>): (r: Result<nat>)
    ensures text.None? ==> r == Success(0)
    ensures text.Some? ==> (r.Success? <==> AllDigits(text.value))
    ensures text.Some? && r.Success? ==> r.value == DigitsValue(text.value)
    ensures r.Failure? ==> r.error == Invalid("offset")
  {
    match DecimalNumber(text.GetOr("0"))
    case Some(n) => Success(n)
    case None => Failure(Invalid("offset"))
  }

  /** A page of a table: the rows of `rows` after skipping `offset`, at most
      `limit` of them (`.limit(limit).offset(offset)`). */
  function Page<T>(rows: seq<T>, limit: nat, offset: nat): (r: seq<T>)
    ensures |r| == if offset >= |rows| then 0 else if offset + limit <= |rows| then limit else |rows| - offset
    ensures forall i :: 0 <= i < |r| ==> offset + i < |rows| && r[i] == rows[offset + i]
  {
    if offset >= |rows| then []
    else if offset + limit >= |rows| then rows[offset..]
    else rows[offset..offset + limit]
  }
}
