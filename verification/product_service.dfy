/** Create/read/update/delete of products over the Products table. */
module ProductService {
  import opened Wrappers
  import opened Entities
  import opened Dtos
  import opened DotNetText
  import Tables

  /** Rebuilds the row a payload was mapped from. */
  function ToProduct(d: ProductDto): Product {
    Product(d.id, d.name, d.description, d.sku)
  }

  /** Field-for-field copy of a row into its payload; nothing is lost. */
  function MapToProductDto(p: Product): (d: ProductDto)
    ensures ToProduct(d) == p
  {
    ProductDto(p.id, p.name, p.description, p.sku)
  }

  /** Creation needs a payload whose name, description and SKU are all
      non-null and non-empty. */
  predicate ValidNewProduct(dto: Option<AddProductDto>) {
    && dto.Some?
    && !IsNullOrEmpty(dto.value.name)
    && !IsNullOrEmpty(dto.value.description)
    && !IsNullOrEmpty(dto.value.sku)
  }

  /** An update needs a payload with non-empty name and description; the SKU
      is not checked. */
  predicate ValidProductUpdate(dto: Option<UpdateProductDto>) {
    dto.Some? && !IsNullOrEmpty(dto.value.name) && !IsNullOrEmpty(dto.value.description)
  }

  /** Only the Products table may differ. */
  predicate OthersUnchanged(db: Db, db': Db) {
    db'.customers == db.customers && db'.orders == db.orders && db'.activities == db.activities
  }

  /** Inserts a product under the identity `id` the database allocates and
      commits; the commit reports `rowsAffected`. */
  function CreateProduct(db: Db, dto: Option<AddProductDto>, id: int, rowsAffected: nat)
    : (r: Outcome<Option<ProductDto>>)
    requires id !in db.products
    ensures r.saved <==> ValidNewProduct(dto)
    ensures !r.saved ==> r.db == db && r.result == None
    ensures r.saved ==>
      && r.db.products.Keys == db.products.Keys + {id}
      && Tables.AgreeExcept(db.products, r.db.products, id)
      && var p := r.db.products[id];
         p.name == dto.value.name && p.description == dto.value.description && p.sku == dto.value.sku
    ensures OthersUnchanged(db, r.db)
    ensures r.result.Some? <==> r.saved && rowsAffected > 0
    ensures r.result.Some? ==> ToProduct(r.result.value) == r.db.products[id]
  {
    if !ValidNewProduct(dto) then
      Outcome(None, db, false)
    else
      var a := dto.value;
      var p := Product(id, a.name, a.description, a.sku);
      Outcome(if rowsAffected > 0 then Some(MapToProductDto(p)) else None,
              db.(products := db.products[id := p]), true)
  }

  /** Removes the product with that id, if any. The service itself leaves
      the orders that refer to it as they are; the database's cascade on
      the foreign key is not part of this model. */
  function DeleteProduct(db: Db, id: int): (r: Outcome<bool>)
    ensures r.result <==> id in db.products
    ensures r.saved == r.result
    ensures !r.result ==> r.db == db
    ensures r.db.products.Keys == db.products.Keys - {id}
    ensures Tables.AgreeExcept(db.products, r.db.products, id)
    ensures OthersUnchanged(db, r.db)
  {
    if id !in db.products then
      Outcome(false, db, false)
    else
      Outcome(true, db.(products := db.products - {id}), true)
  }

  /** One payload per stored product, in storage order. */
  method GetAllProducts(db: Db) returns (all: seq<ProductDto>)
    ensures |all| == |db.products|
    ensures forall i :: 0 <= i < |all| ==>
      all[i].id in db.products && ToProduct(all[i]) == db.products[all[i].id]
    ensures forall id :: id in db.products ==> exists i :: 0 <= i < |all| && all[i].id == id
    ensures forall i, j :: 0 <= i < j < |all| ==> all[i].id != all[j].id
  {
    var rows := Tables.Rows(db.products);
    all := seq(|rows|, i requires 0 <= i < |rows| => MapToProductDto(rows[i].1));
    forall id | id in db.products ensures exists i :: 0 <= i < |all| && all[i].id == id {
      var i :| 0 <= i < |rows| && rows[i].0 == id;
      assert all[i].id == id;
    }
  }

  /** The product with that id as a payload, or null. */
  function GetProductById(db: Db, id: int): (r: Option<ProductDto>)
    ensures r.Some? <==> id in db.products
    ensures r.Some? ==> r.value.id == id && ToProduct(r.value) == db.products[id]
  {
    if id in db.products then Some(MapToProductDto(db.products[id])) else None
  }

  /** Validates the payload before looking the product up, then overwrites
      name, description and SKU (a null SKU included). */
  function UpdateProduct(db: Db, id: int, dto: Option<UpdateProductDto>): (r: Outcome<Option<ProductDto>>)
    ensures r.saved <==> ValidProductUpdate(dto) && id in db.products
    ensures r.result.Some? <==> r.saved
    ensures !r.saved ==> r.db == db
    ensures r.db.products.Keys == db.products.Keys
    ensures Tables.AgreeExcept(db.products, r.db.products, id)
    ensures r.saved ==>
      && var p := r.db.products[id];
         && p.name == dto.value.name && p.description == dto.value.description
         && p.sku == dto.value.sku
         && ToProduct(r.result.value) == p
    ensures OthersUnchanged(db, r.db)
  {
    if !ValidProductUpdate(dto) then
      Outcome(None, db, false)
    else if id !in db.products then
      Outcome(None, db, false)
    else
      var u := dto.value;
      var p := db.products[id].(name := u.name, description := u.description, sku := u.sku);
      Outcome(Some(MapToProductDto(p)), db.(products := db.products[id := p]), true)
  }

  /** Reading back a freshly created product yields the payload the creation
      returned. */
  lemma CreateThenGet(db: Db, dto: Option<AddProductDto>, id: int, rowsAffected: nat)
    requires id !in db.products
    ensures var r := CreateProduct(db, dto, id, rowsAffected);
      r.result.Some? ==> GetProductById(r.db, id) == r.result
  {
  }

  /** Deleting what was just created restores the store. */
  lemma CreateThenDelete(db: Db, dto: Option<AddProductDto>, id: int, rowsAffected: nat)
    requires id !in db.products
    ensures var r := CreateProduct(db, dto, id, rowsAffected);
      r.saved ==> DeleteProduct(r.db, id) == Outcome(true, db, true)
  {
    var r := CreateProduct(db, dto, id, rowsAffected);
    if r.saved {
      assert r.db.products - {id} == db.products;
    }
  }

  /** Reading back an updated product yields the payload the update
      returned. */
  lemma UpdateThenGet(db: Db, id: int, dto: Option<UpdateProductDto>)
    ensures var r := UpdateProduct(db, id, dto);
      r.saved ==> GetProductById(r.db, id) == r.result
  {
  }

  /** Repeating an update changes nothing more and returns the same payload. */
  lemma UpdateIdempotent(db: Db, id: int, dto: Option<UpdateProductDto>)
    ensures var r := UpdateProduct(db, id, dto);
      UpdateProduct(r.db, id, dto) == r
  {
    var r := UpdateProduct(db, id, dto);
    if r.saved {
      assert r.db.products[id := r.db.products[id]] == r.db.products;
    }
  }

  /** An update may blank the SKU even though creation demands one. */
  lemma UpdateMayClearSku(db: Db, id: int)
    requires id in db.products
    ensures var r := UpdateProduct(db, id, Some(UpdateProductDto(Some("A"), Some("B"), None)));
      r.saved && r.db.products[id].sku == None
      && !ValidNewProduct(Some(AddProductDto(Some("A"), Some("B"), None)))
  {
  }
}
