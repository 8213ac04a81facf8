/** Create/read/update/delete of orders over the Orders table. */
module OrderService {
  import opened Wrappers
  import opened Entities
  import opened Dtos
  import Tables

  /** Field-for-field copy of an order into its payload. */
  function MapToOrderDto(o: Order): (d: OrderDto)
    ensures d.createdDate.Some? && d.updatedDate.Some?
    ensures Order(d.id, d.productId, d.customerId, d.status,
                  d.createdDate.value, d.updatedDate.value) == o
  {
    OrderDto(o.id, o.productId, o.customerId, o.status, Some(o.createdDate), Some(o.updatedDate))
  }

  /** Both ids positive and a status present; an empty status is accepted. */
  predicate ValidNewOrder(dto: Option<AddOrderDto>) {
    dto.Some? && dto.value.productId > 0 && dto.value.customerId > 0 && dto.value.status.Some?
  }

  /** The referenced product and customer both exist. */
  predicate ReferencesExist(db: Db, dto: AddOrderDto) {
    dto.productId in db.products && dto.customerId in db.customers
  }

  /** Only the Orders table may differ. */
  predicate OthersUnchanged(db: Db, db': Db) {
    db'.customers == db.customers && db'.products == db.products && db'.activities == db.activities
  }

  /** The position of the order with that primary key. */
  function IndexOfId(orders: seq<Order>, id: int): Option<nat> {
    Tables.FirstIndex(orders, (o: Order) => o.id == id)
  }

  /** The position of the first order, in storage order, with that product
      and customer. */
  function IndexOfPair(orders: seq<Order>, productId: int, customerId: int): Option<nat> {
    Tables.FirstIndex(orders, (o: Order) => o.productId == productId && o.customerId == customerId)
  }

  /** In a table with unique keys, the row found is the only one with that key. */
  lemma IndexOfIdUnique(orders: OrderTable, id: int)
    ensures IndexOfId(orders, id).Some? <==> HasOrder(orders, id)
    ensures IndexOfId(orders, id).Some? ==>
      forall j :: 0 <= j < |orders| && orders[j].id == id ==> j == IndexOfId(orders, id).value
  {
  }

  /** Validates the payload, checks that the product and the customer exist,
      then inserts an order stamped `now` under the identity `id` the
      database allocates and commits. */
  function CreateOrder(db: Db, dto: Option<AddOrderDto>, id: int, now: DateTime, rowsAffected: nat)
    : (r: Outcome<Option<OrderDto>>)
    requires !HasOrder(db.orders, id)
    ensures r.saved <==> ValidNewOrder(dto) && ReferencesExist(db, dto.value)
    ensures !r.saved ==> r.db == db && r.result == None
    ensures r.saved ==>
      && |r.db.orders| == |db.orders| + 1
      && r.db.orders[..|db.orders|] == db.orders
      && var o := r.db.orders[|db.orders|];
         && o == Order(id, dto.value.productId, dto.value.customerId, dto.value.status, now, MinDateTime)
         && o.productId in r.db.products && o.customerId in r.db.customers
    ensures OthersUnchanged(db, r.db)
    ensures r.result.Some? <==> r.saved && rowsAffected > 0
    ensures r.result.Some? ==> r.result.value == MapToOrderDto(r.db.orders[|db.orders|])
  {
    if !ValidNewOrder(dto) then
      Outcome(None, db, false)
    else if !ReferencesExist(db, dto.value) then
      Outcome(None, db, false)
    else
      var a := dto.value;
      var o := Order(id, a.productId, a.customerId, a.status, now, MinDateTime);
      var orders: OrderTable := db.orders + [o];
      Outcome(if rowsAffected > 0 then Some(MapToOrderDto(o)) else None,
              db.(orders := orders), true)
  }

  /** Removes the order with that id, if any. */
  function DeleteOrder(db: Db, id: int): (r: Outcome<bool>)
    ensures r.result <==> HasOrder(db.orders, id)
    ensures r.saved == r.result
    ensures !r.result ==> r.db == db
    ensures !HasOrder(r.db.orders, id)
    ensures |r.db.orders| == |db.orders| - (if r.result then 1 else 0)
    ensures forall o :: o in r.db.orders <==> o in db.orders && o.id != id
    ensures OthersUnchanged(db, r.db)
  {
    match IndexOfId(db.orders, id)
    case None => Outcome(false, db, false)
    case Some(i) =>
      var orders: OrderTable := db.orders[..i] + db.orders[i + 1..];
      Outcome(true, db.(orders := orders), true)
  }

  /** Every order as a payload, in storage order. */
  function GetAllOrders(db: Db): (all: seq<OrderDto>)
    ensures |all| == |db.orders|
    ensures forall i :: 0 <= i < |all| ==> all[i] == MapToOrderDto(db.orders[i])
  {
    seq(|db.orders|, i requires 0 <= i < |db.orders| => MapToOrderDto(db.orders[i]))
  }

  /** The order with that id as a payload, or null. */
  function GetOrderById(db: Db, id: int): (r: Option<OrderDto>)
    ensures r.Some? <==> HasOrder(db.orders, id)
    ensures r.Some? ==> exists i :: 0 <= i < |db.orders| && db.orders[i].id == id
                                   && r.value == MapToOrderDto(db.orders[i])
  {
    match IndexOfId(db.orders, id)
    case None => None
    case Some(i) => Some(MapToOrderDto(db.orders[i]))
  }

  /** The order has the payload's product and customer ids. */
  predicate Matches(o: Order, dto: UpdateOrderDto) {
    o.productId == dto.productId && o.customerId == dto.customerId
  }

  /** Finds the first order whose product and customer ids equal the
      payload's and sets its status and update time; no other column moves. */
  function UpdateOrder(db: Db, dto: UpdateOrderDto, now: DateTime): (r: Outcome<Option<OrderDto>>)
    ensures r.saved <==> exists i :: 0 <= i < |db.orders| && Matches(db.orders[i], dto)
    ensures r.result.Some? <==> r.saved
    ensures !r.saved ==> r.db == db
    ensures |r.db.orders| == |db.orders|
    ensures r.saved ==>
      var i := IndexOfPair(db.orders, dto.productId, dto.customerId).value;
      && (forall j :: 0 <= j < |db.orders| && j != i ==> r.db.orders[j] == db.orders[j])
      && var (o, o') := (db.orders[i], r.db.orders[i]);
         && o'.id == o.id && o'.productId == o.productId && o'.customerId == o.customerId
         && o'.createdDate == o.createdDate
         && o'.status == dto.status && o'.updatedDate == now
         && r.result == Some(MapToOrderDto(o'))
    ensures OthersUnchanged(db, r.db)
  {
    match IndexOfPair(db.orders, dto.productId, dto.customerId)
    case None => Outcome(None, db, false)
    case Some(i) =>
      var o := db.orders[i].(status := dto.status, updatedDate := now);
      var orders: OrderTable := db.orders[i := o];
      Outcome(Some(MapToOrderDto(o)), db.(orders := orders), true)
  }

  /** Reading back a freshly created order yields the payload the creation
      returned. */
  lemma CreateThenGet(db: Db, dto: Option<AddOrderDto>, id: int, now: DateTime, rowsAffected: nat)
    requires !HasOrder(db.orders, id)
    ensures var r := CreateOrder(db, dto, id, now, rowsAffected);
      r.result.Some? ==> GetOrderById(r.db, id) == r.result
  {
    var r := CreateOrder(db, dto, id, now, rowsAffected);
    if r.result.Some? {
      var n := |db.orders|;
      IndexOfIdUnique(r.db.orders, id);
      assert r.db.orders[n].id == id;
    }
  }

  /** When two orders share the product and customer ids, an update always
      reaches the earlier one and never the later one, whatever order the
      caller meant. */
  lemma UpdateReachesFirstOfPair(db: Db, dto: UpdateOrderDto, now: DateTime, i: nat, j: nat)
    requires i < j < |db.orders|
    requires db.orders[i].productId == db.orders[j].productId == dto.productId
    requires db.orders[i].customerId == db.orders[j].customerId == dto.customerId
    ensures UpdateOrder(db, dto, now).db.orders[j] == db.orders[j]
  {
    var k := IndexOfPair(db.orders, dto.productId, dto.customerId).value;
    assert k <= i;
  }
}
