/** The rows of the four tables (users, products, orders, order_items) and the
    column limits the database enforces. Money is kept in integer cents: a
    numeric(10, 2) column holds at most eight digits before the point, so a
    stored amount in cents is below 10^10. Timestamps are plain integers that
    the caller supplies as the current time. */
module Rows {
  import opened Wrappers

  /** Largest value of a Postgres `integer` column. */
  const MaxInt32: int := 0x7fff_ffff

  /** Whether `n` fits a Postgres `integer` column. */
  predicate Int32(n: int) {
    -MaxInt32 - 1 <= n <= MaxInt32
  }

  /** Exclusive upper bound, in cents, of a numeric(10, 2) column. */
  const NumericLimit: int := 10_000_000_000

  /** What zod's `.int().positive()` lets through. */
  type Positive = n: int | n > 0 witness 1

  datatype Role = Customer | Admin

  datatype Status = Pending | Paid | Shipped | Delivered | Cancelled

  datatype User = User(
    id: int,
    email: string,
    passwordHash: string,
    name: string,
    role: Role,
    createdAt: int,
    updatedAt: int)

  datatype Product = Product(
    id: int,
    name: string,
    description: Option<string>,
    price: nat,
    stock: int,
    createdAt: int,
    updatedAt: int)

  datatype Order = Order(
    id: int,
    userId: int,
    totalAmount: nat,
    status: Status,
    createdAt: int,
    updatedAt: int)

  datatype OrderItem = OrderItem(
    orderId: int,
    productId: int,
    quantity: int,
    priceAtPurchase: nat)

  /** The composite primary key (order_id, product_id) of order_items. */
  type ItemKey = (int, int)
}
