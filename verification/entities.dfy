/** The persisted rows and the store that holds them: the four tables of the
    application's database context, each table as an immutable value. */
module Entities {
  import opened Wrappers
  import Seqs

  /** A `DateTime` as its tick count (100 ns units since 0001-01-01). */
  type DateTime = int

  /** `default(DateTime)`, the value of a non-nullable date never assigned. */
  const MinDateTime: DateTime := 0

  /** A 128-bit globally unique identifier. */
  newtype Guid = x: int | 0 <= x < 0x1_0000_0000_0000_0000_0000_0000_0000_0000

  datatype Customer = Customer(
    id: int,
    firstName: Option<string>,
    lastName: Option<string>,
    phone: Option<string>,
    email: Option<string>)

  datatype Product = Product(
    id: int,
    name: Option<string>,
    description: Option<string>,
    sku: Option<string>)

  /** An order refers to one product and one customer by their ids. */
  datatype Order = Order(
    id: int,
    productId: int,
    customerId: int,
    status: Option<string>,
    createdDate: DateTime,
    updatedDate: DateTime)

  /** One e-mail campaign send and its engagement milestones. */
  datatype Activity = Activity(
    id: Guid,
    name: Option<string>,
    fromAddress: Option<string>,
    toEmailAddress: Option<string>,
    fromName: Option<string>,
    createdDate: DateTime,
    bouncedDate: Option<DateTime>,
    openedDate: Option<DateTime>,
    sentDate: Option<DateTime>)

  /** A keyed table: every row is stored under its own primary key. */
  type CustomerTable = m: map<int, Customer> | forall k :: k in m ==> m[k].id == k
  type ProductTable = m: map<int, Product> | forall k :: k in m ==> m[k].id == k
  type ActivityTable = m: map<Guid, Activity> | forall k :: k in m ==> m[k].id == k

  /** The Orders table in storage order; the primary key is unique. */
  function OrderId(o: Order): int { o.id }
  type OrderTable = s: seq<Order> | Seqs.DistinctBy(s, OrderId)

  /** The database context: one table per entity. */
  datatype Db = Db(
    customers: CustomerTable,
    products: ProductTable,
    orders: OrderTable,
    activities: ActivityTable)

  /** What one service call produces: its return value, the store after the
      call, and whether the call committed (called `SaveChangesAsync`). */
  datatype Outcome<R> = Outcome(result: R, db: Db, saved: bool)

  /** `true` when some order has the given id. */
  predicate HasOrder(orders: seq<Order>, id: int) {
    exists i :: 0 <= i < |orders| && orders[i].id == id
  }

  /** The foreign keys Order.ProductId -> Product and Order.CustomerId ->
      Customer resolve for every order. */
  ghost predicate ReferencesResolve(db: Db) {
    forall i :: 0 <= i < |db.orders| ==>
      db.orders[i].productId in db.products && db.orders[i].customerId in db.customers
  }
}
