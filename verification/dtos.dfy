/** The payloads the services accept and return. */
module Dtos {
  import opened Wrappers
  import opened Entities

  datatype AddCustomerDto = AddCustomerDto(
    firstName: Option<string>, lastName: Option<string>, email: Option<string>, phone: Option<string>)
  datatype UpdateCustomerDto = UpdateCustomerDto(
    firstName: Option<string>, lastName: Option<string>, phone: Option<string>, email: Option<string>)
  datatype CustomerDto = CustomerDto(
    id: int, firstName: Option<string>, lastName: Option<string>, email: Option<string>, phone: Option<string>)

  datatype AddProductDto = AddProductDto(
    name: Option<string>, description: Option<string>, sku: Option<string>)
  datatype UpdateProductDto = UpdateProductDto(
    name: Option<string>, description: Option<string>, sku: Option<string>)
  datatype ProductDto = ProductDto(
    id: int, name: Option<string>, description: Option<string>, sku: Option<string>)

  datatype AddOrderDto = AddOrderDto(productId: int, customerId: int, status: Option<string>)
  /** Carries no order id: the order to change is found by the id pair. */
  datatype UpdateOrderDto = UpdateOrderDto(productId: int, customerId: int, status: Option<string>)
  /** The two dates are nullable in the payload although always set on the row. */
  datatype OrderDto = OrderDto(
    id: int, productId: int, customerId: int, status: Option<string>,
    createdDate: Option<DateTime>, updatedDate: Option<DateTime>)

  /** `createdDate` defaults to the request time on the client side; the
      service ignores it. */
  datatype AddActivityDto = AddActivityDto(
    name: Option<string>, fromAddress: Option<string>, toEmailAddress: Option<string>,
    fromName: Option<string>, createdDate: DateTime)
  /** A partial update: a null string keeps the stored value. */
  datatype UpdateActivityDto = UpdateActivityDto(
    name: Option<string>, fromAddress: Option<string>, toEmailAddress: Option<string>,
    fromName: Option<string>, bouncedDate: Option<DateTime>, openedDate: Option<DateTime>)
  datatype ActivityDto = ActivityDto(
    id: Guid, name: Option<string>, fromAddress: Option<string>, toEmailAddress: Option<string>,
    fromName: Option<string>, createdDate: DateTime, bouncedDate: Option<DateTime>,
    openedDate: Option<DateTime>, sentDate: Option<DateTime>)
}
