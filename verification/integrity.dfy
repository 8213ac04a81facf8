/** The foreign keys Order -> Product and Order -> Customer as seen by the
    services: checked when an order is created, kept by the order
    operations, and not protected by the services' own writes when a
    customer or product is deleted. The database's cascading delete is not
    part of this model. */
module Integrity {
  import opened Wrappers
  import opened Entities
  import opened Dtos
  import CustomerService
  import ProductService
  import OrderService
  import Seed

  /** Creating an order keeps every order's references resolvable. */
  lemma CreateOrderKeepsReferences(db: Db, dto: Option<AddOrderDto>, id: int, now: DateTime, rowsAffected: nat)
    requires !HasOrder(db.orders, id)
    requires ReferencesResolve(db)
    ensures ReferencesResolve(OrderService.CreateOrder(db, dto, id, now, rowsAffected).db)
  {
    var r := OrderService.CreateOrder(db, dto, id, now, rowsAffected);
    if r.saved {
      forall i | 0 <= i < |r.db.orders|
        ensures r.db.orders[i].productId in r.db.products && r.db.orders[i].customerId in r.db.customers
      {
        if i < |db.orders| {
          assert r.db.orders[i] == r.db.orders[..|db.orders|][i];
        }
      }
    }
  }

  /** Updating an order never touches its product or customer id. */
  lemma UpdateOrderKeepsReferences(db: Db, dto: UpdateOrderDto, now: DateTime)
    requires ReferencesResolve(db)
    ensures ReferencesResolve(OrderService.UpdateOrder(db, dto, now).db)
  {
    var r := OrderService.UpdateOrder(db, dto, now);
    if r.saved {
      var k := OrderService.IndexOfPair(db.orders, dto.productId, dto.customerId).value;
      forall i | 0 <= i < |r.db.orders|
        ensures r.db.orders[i].productId in r.db.products && r.db.orders[i].customerId in r.db.customers
      {
        if i != k {
          assert r.db.orders[i] == db.orders[i];
        }
      }
    }
  }

  /** Deleting an order only drops rows. */
  lemma DeleteOrderKeepsReferences(db: Db, id: int)
    requires ReferencesResolve(db)
    ensures ReferencesResolve(OrderService.DeleteOrder(db, id).db)
  {
    var r := OrderService.DeleteOrder(db, id);
    forall i | 0 <= i < |r.db.orders|
      ensures r.db.orders[i].productId in r.db.products && r.db.orders[i].customerId in r.db.customers
    {
      assert r.db.orders[i] in db.orders;
    }
  }

  /** Updating a customer or a product keeps every key, so every reference
      that resolved still resolves. */
  lemma UpdatesKeepReferences(db: Db, id: int, c: UpdateCustomerDto, p: Option<UpdateProductDto>)
    requires ReferencesResolve(db)
    ensures ReferencesResolve(CustomerService.UpdateCustomer(db, id, c).db)
    ensures ReferencesResolve(ProductService.UpdateProduct(db, id, p).db)
  {
  }

  /** The service's own writes, deleting the seeded customer 1, leave the
      seeded order 1 pointing at no customer. */
  lemma DeleteCustomerMayOrphan(now: DateTime)
    ensures var db := Seed.Initial(now);
      && ReferencesResolve(db)
      && var r := CustomerService.DeleteCustomer(db, 1);
         r.result && !ReferencesResolve(r.db)
  {
    var r := CustomerService.DeleteCustomer(Seed.Initial(now), 1);
    assert r.db.orders[0].customerId == 1;
  }

  /** The same holds for deleting the seeded product 2. */
  lemma DeleteProductMayOrphan(now: DateTime)
    ensures var db := Seed.Initial(now);
      && ReferencesResolve(db)
      && var r := ProductService.DeleteProduct(db, 2);
         r.result && !ReferencesResolve(r.db)
  {
    var r := ProductService.DeleteProduct(Seed.Initial(now), 2);
    assert r.db.orders[1].productId == 2;
  }

  /** An order for a customer that does not exist is refused, even when the
      payload is otherwise valid; once that customer has been created the
      same order is accepted and reads back with its ids and status. */
  lemma OrderForNewCustomer(db: Db, now: DateTime, orderId: int, customerId: int)
    requires 1 in db.products && customerId > 0
    requires customerId !in db.customers && !HasOrder(db.orders, orderId)
    ensures var order := Some(AddOrderDto(1, customerId, Some("Pending")));
      && !OrderService.CreateOrder(db, order, orderId, now, 1).saved
      && var c := CustomerService.CreateCustomer(db,
           Some(AddCustomerDto(Some("John"), Some("Doe"), Some("john@example.com"), Some("1234567890"))),
           customerId, 1);
         && !HasOrder(c.db.orders, orderId)
         && var o := OrderService.CreateOrder(c.db, order, orderId, now, 1);
            && o.result == Some(OrderDto(orderId, 1, customerId, Some("Pending"), Some(now), Some(MinDateTime)))
            && OrderService.GetOrderById(o.db, orderId) == o.result
  {
    var order := Some(AddOrderDto(1, customerId, Some("Pending")));
    var c := CustomerService.CreateCustomer(db,
      Some(AddCustomerDto(Some("John"), Some("Doe"), Some("john@example.com"), Some("1234567890"))),
      customerId, 1);
    assert c.db.orders == db.orders;
    OrderService.CreateThenGet(c.db, order, orderId, now, 1);
  }
}
