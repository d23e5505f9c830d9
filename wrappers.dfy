/** Optional values, results and the error cases that the handlers surface.
    HTTP status codes are not modelled as numbers: each error variant stands for
    the response the source sends (noted beside it). */
module Wrappers {

  datatype Option<T> = None | Some(value: T) {
    function GetOr(default: T): T {
      match this
      case Some(v) => v
      case None => default
    }
  }

  /** The tables a row can be looked up in. */
  datatype Entity = UserRow | ProductRow | OrderRow

  datatype Error =
    /** a body, parameter or query field failed its schema (400) */
    | Invalid(field: string)
    /** a referenced row is absent while creating something (400) */
    | Missing(entity: Entity, id: int)
    /** the row addressed by the request is absent (404) */
    | NotFound(entity: Entity, id: int)
    /** the pre-check of an order line failed (400) */
    | InsufficientStock(productId: int, available: int, requested: int)
    /** another user already holds the e-mail address (400) */
    | EmailExists(email: string)
    /** the database refused a second order_items row with the same (order_id, product_id) */
    | DuplicateKey(orderId: int, productId: int)
    /** the database refused a row whose foreign key points nowhere, or a delete that a
        restricting foreign key forbids */
    | ForeignKeyViolation(entity: Entity, id: int)
    /** the database refused a value too wide for a numeric(10, 2) column */
    | NumericOverflow(cents: int)
    /** the database refused a value outside the 32-bit integer column range */
    | IntegerOutOfRange(value: int)
    /** the serial id's sequence has handed out its largest 32-bit value */
    | SequenceExhausted(entity: Entity)
    /** the database refused a string longer than its varchar column */
    | ValueTooLong(field: string)
    /** the query builder refused a multi-row insert given no rows (500) */
    | EmptyInsert

  datatype Result<T> = Success(value: T) | Failure(error: Error)
}
