/** Create/read/update/delete of customers over the Customers table. */
module CustomerService {
  import opened Wrappers
  import opened Entities
  import opened Dtos
  import opened DotNetText
  import Tables

  /** Rebuilds the row a payload was mapped from. */
  function ToCustomer(d: CustomerDto): Customer {
    Customer(d.id, d.firstName, d.lastName, d.phone, d.email)
  }

  /** Field-for-field copy of a row into its payload; nothing is lost. */
  function MapToCustomerDto(c: Customer): (d: CustomerDto)
    ensures ToCustomer(d) == c
  {
    CustomerDto(c.id, c.firstName, c.lastName, c.email, c.phone)
  }

  /** The payload is present and none of its four fields is null or empty.
      White space alone is accepted. */
  predicate ValidNewCustomer(dto: Option<AddCustomerDto>) {
    && dto.Some?
    && !IsNullOrEmpty(dto.value.firstName)
    && !IsNullOrEmpty(dto.value.lastName)
    && !IsNullOrEmpty(dto.value.email)
    && !IsNullOrEmpty(dto.value.phone)
  }

  /** Only the Customers table may differ. */
  predicate OthersUnchanged(db: Db, db': Db) {
    db'.products == db.products && db'.orders == db.orders && db'.activities == db.activities
  }

  /** Inserts a customer under the identity `id` the database allocates and
      commits; the commit reports `rowsAffected`. */
  function CreateCustomer(db: Db, dto: Option<AddCustomerDto>, id: int, rowsAffected: nat)
    : (r: Outcome<Option<CustomerDto>>)
    requires id !in db.customers
    ensures r.saved <==> ValidNewCustomer(dto)
    ensures !r.saved ==> r.db == db && r.result == None
    ensures r.saved ==>
      && r.db.customers.Keys == db.customers.Keys + {id}
      && Tables.AgreeExcept(db.customers, r.db.customers, id)
      && var c := r.db.customers[id];
         && c.firstName == dto.value.firstName && c.lastName == dto.value.lastName
         && c.email == dto.value.email && c.phone == dto.value.phone
    ensures OthersUnchanged(db, r.db)
    ensures r.result.Some? <==> r.saved && rowsAffected > 0
    ensures r.result.Some? ==> ToCustomer(r.result.value) == r.db.customers[id]
  {
    if !ValidNewCustomer(dto) then
      Outcome(None, db, false)
    else
      var a := dto.value;
      var c := Customer(id, a.firstName, a.lastName, a.phone, a.email);
      var db' := db.(customers := db.customers[id := c]);
      Outcome(if rowsAffected > 0 then Some(MapToCustomerDto(c)) else None, db', true)
  }

  /** Removes the customer with that id, if any. The service itself leaves
      the orders that refer to it as they are; the database's cascade on
      the foreign key is not part of this model. */
  function DeleteCustomer(db: Db, id: int): (r: Outcome<bool>)
    ensures r.result <==> id in db.customers
    ensures r.saved == r.result
    ensures !r.result ==> r.db == db
    ensures r.db.customers.Keys == db.customers.Keys - {id}
    ensures Tables.AgreeExcept(db.customers, r.db.customers, id)
    ensures OthersUnchanged(db, r.db)
  {
    if id !in db.customers then
      Outcome(false, db, false)
    else
      Outcome(true, db.(customers := db.customers - {id}), true)
  }

  /** One payload per stored customer, in storage order. */
  method GetAllCustomers(db: Db) returns (all: seq<CustomerDto>)
    ensures |all| == |db.customers|
    ensures forall i :: 0 <= i < |all| ==>
      all[i].id in db.customers && ToCustomer(all[i]) == db.customers[all[i].id]
    ensures forall id :: id in db.customers ==> exists i :: 0 <= i < |all| && all[i].id == id
    ensures forall i, j :: 0 <= i < j < |all| ==> all[i].id != all[j].id
  {
    var rows := Tables.Rows(db.customers);
    all := seq(|rows|, i requires 0 <= i < |rows| => MapToCustomerDto(rows[i].1));
    forall id | id in db.customers ensures exists i :: 0 <= i < |all| && all[i].id == id {
      var i :| 0 <= i < |rows| && rows[i].0 == id;
      assert all[i].id == id;
    }
  }

  /** The customer with that id as a payload, or null. */
  function GetCustomerById(db: Db, id: int): (r: Option<CustomerDto>)
    ensures r.Some? <==> id in db.customers
    ensures r.Some? ==> r.value.id == id && ToCustomer(r.value) == db.customers[id]
  {
    if id in db.customers then Some(MapToCustomerDto(db.customers[id])) else None
  }

  /** Overwrites all four fields of an existing customer, nulls included. */
  function UpdateCustomer(db: Db, id: int, dto: UpdateCustomerDto): (r: Outcome<Option<CustomerDto>>)
    ensures r.saved <==> id in db.customers
    ensures r.result.Some? <==> r.saved
    ensures !r.saved ==> r.db == db
    ensures r.db.customers.Keys == db.customers.Keys
    ensures Tables.AgreeExcept(db.customers, r.db.customers, id)
    ensures r.saved ==>
      && var c := r.db.customers[id];
         && c.firstName == dto.firstName && c.lastName == dto.lastName
         && c.phone == dto.phone && c.email == dto.email
         && ToCustomer(r.result.value) == c
    ensures OthersUnchanged(db, r.db)
  {
    if id !in db.customers then
      Outcome(None, db, false)
    else
      var c := db.customers[id].(firstName := dto.firstName, lastName := dto.lastName,
                                 phone := dto.phone, email := dto.email);
      Outcome(Some(MapToCustomerDto(c)), db.(customers := db.customers[id := c]), true)
  }

  /** Reading back a freshly created customer yields the payload the
      creation returned. */
  lemma CreateThenGet(db: Db, dto: Option<AddCustomerDto>, id: int, rowsAffected: nat)
    requires id !in db.customers
    ensures var r := CreateCustomer(db, dto, id, rowsAffected);
      r.result.Some? ==> GetCustomerById(r.db, id) == r.result
  {
  }

  /** Deleting what was just created restores the store. */
  lemma CreateThenDelete(db: Db, dto: Option<AddCustomerDto>, id: int, rowsAffected: nat)
    requires id !in db.customers
    ensures var r := CreateCustomer(db, dto, id, rowsAffected);
      r.saved ==> DeleteCustomer(r.db, id) == Outcome(true, db, true)
  {
    var r := CreateCustomer(db, dto, id, rowsAffected);
    if r.saved {
      assert r.db.customers - {id} == db.customers;
    }
  }

  /** Reading back an updated customer yields the payload the update
      returned. */
  lemma UpdateThenGet(db: Db, id: int, dto: UpdateCustomerDto)
    ensures var r := UpdateCustomer(db, id, dto);
      r.saved ==> GetCustomerById(r.db, id) == r.result
  {
  }

  /** Repeating an update changes nothing more and returns the same payload. */
  lemma UpdateIdempotent(db: Db, id: int, dto: UpdateCustomerDto)
    ensures var r := UpdateCustomer(db, id, dto);
      UpdateCustomer(r.db, id, dto) == r
  {
    var r := UpdateCustomer(db, id, dto);
    if r.saved {
      assert r.db.customers[id := r.db.customers[id]] == r.db.customers;
    }
  }

  /** A whitespace-only first name passes validation and is stored as given. */
  lemma WhiteSpaceNameAccepted(db: Db, id: int)
    requires id !in db.customers
    ensures var dto := AddCustomerDto(Some(" "), Some("Doe"), Some("j@x.com"), Some("1"));
      var r := CreateCustomer(db, Some(dto), id, 1);
      r.saved && r.db.customers[id].firstName == Some(" ")
  {
  }
}
