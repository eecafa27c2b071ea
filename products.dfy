/**
 * The product services: create, show, list and update products in the
 * products table.  Names are meant to be unique across the table; the
 * services check this against the store before writing.
 */
module Products {
  import opened Results
  import opened Repository

  /**
   * A JavaScript number (price, quantity).  The services only store and
   * return these values, never compute with them, so they stay opaque.
   */
  type Number(==)

  datatype Product = Product(id: Id, name: string, description: string, price: Number, quantity: Number)

  type Table = map<Id, Product>

  const NotFound := AppError("Product not found.")
  const NameInUse := AppError("There is already one product with this name")

  /** Every record is stored under its own primary key. */
  predicate Keyed(m: Table) {
    forall k :: k in m ==> m[k].id == k
  }

  /** `findByName(name)` finds a product: some stored product has exactly this name. */
  predicate NameTaken(m: Table, name: string) {
    exists k :: k in m && m[k].name == name
  }

  /** No two stored products share a name. */
  predicate NamesUnique(m: Table) {
    forall a, b :: a in m && b in m && m[a].name == m[b].name ==> a == b
  }

  /** ShowProductService: the stored product with this id, or "Product not found.". */
  function Show(m: Table, id: Id): (r: Result<Product>)
    ensures r.Ok? <==> id in m
    ensures r.Ok? ==> r.value == m[id]
    ensures r.Err? ==> r.error == NotFound
    ensures Keyed(m) && r.Ok? ==> r.value.id == id
  {
    if id in m then Ok(m[id]) else Err(NotFound)
  }

  /**
   * ListProductService: every stored product, once each, in the order the
   * store scans them.  It has no error path.
   */
  ghost function List(m: Table): (r: seq<Product>)
    ensures |r| == |m|
    ensures forall k :: k in m ==> m[k] in r
    ensures forall i :: 0 <= i < |r| ==> r[i] in m.Values
    ensures Keyed(m) ==> forall i :: 0 <= i < |r| ==> r[i].id in m && m[r[i].id] == r[i]
    ensures Keyed(m) ==> forall i, j :: 0 <= i < j < |r| ==> r[i].id != r[j].id
  {
    var r := Find(m);
    assert Keyed(m) ==> Injective(m);
    r
  }

  /**
   * CreateProductService, with `id` the key the store generates on save.
   * It fails, changing nothing, exactly when the name is already used;
   * otherwise the table gains one record under the new key and keeps all others.
   */
  function CreateStep(m: Table, id: Id, name: string, description: string, price: Number, quantity: Number)
    : (s: Step<Result<Product>, Product>)
    requires id !in m
    ensures s.result.Ok? <==> !NameTaken(m, name)
    ensures s.result.Err? ==> s.result.error == NameInUse && s.after == m
    ensures s.result.Ok? ==> s.result.value == Product(id, name, description, price, quantity)
    ensures s.result.Ok? ==> s.after.Keys == m.Keys + {id} && |s.after| == |m| + 1
    ensures s.result.Ok? ==> s.after[id] == s.result.value
    ensures forall k :: k in m ==> k in s.after && s.after[k] == m[k]
    ensures Keyed(m) ==> Keyed(s.after)
    ensures NamesUnique(m) ==> NamesUnique(s.after)
  {
    if NameTaken(m, name) then
      Step(Err(NameInUse), m)
    else
      var product := Product(id, name, description, price, quantity);
      Step(Ok(product), m[id := product])
  }

  /**
   * UpdateProductService.  The existence check runs before the name check,
   * and the name check looks at every product, the updated one included.
   * On success all four request fields replace the stored ones (no merge)
   * and nothing else in the table changes.
   */
  function UpdateStep(m: Table, id: Id, name: string, description: string, price: Number, quantity: Number)
    : (s: Step<Result<Product>, Product>)
    ensures s.result.Ok? <==> id in m && !NameTaken(m, name)
    ensures id !in m ==> s.result == Err(NotFound)
    ensures id in m && NameTaken(m, name) ==> s.result == Err(NameInUse)
    ensures s.result.Err? ==> s.after == m
    ensures s.result.Ok? ==>
      && s.result.value.id == m[id].id
      && s.result.value.name == name
      && s.result.value.description == description
      && s.result.value.price == price
      && s.result.value.quantity == quantity
    ensures s.after.Keys == m.Keys
    ensures s.result.Ok? ==> s.after[id] == s.result.value
    ensures forall k :: k in m && k != id ==> s.after[k] == m[k]
    ensures Keyed(m) ==> Keyed(s.after)
    ensures NamesUnique(m) ==> NamesUnique(s.after)
  {
    if id !in m then
      Step(Err(NotFound), m)
    else if NameTaken(m, name) then
      Step(Err(NameInUse), m)
    else
      var product := m[id].(name := name, description := description, price := price, quantity := quantity);
      Step(Ok(product), m[id := product])
  }

  /** The products repository: the table the services read and save to. */
  class ProductTable {
    var products: Table

    ghost predicate Valid()
      reads this
    {
      Keyed(products)
    }

    constructor ()
      ensures Valid() && products == map[]
    {
      products := map[];
    }

    /**
     * CreateProductService.execute.  The ghost `id` is a key the store could
     * hand out; on success it is the key the record was saved under.
     */
    method Create(name: string, description: string, price: Number, quantity: Number)
      returns (r: Result<Product>, ghost id: Id)
      requires Valid()
      modifies this
      ensures Valid()
      ensures id !in old(products)
      ensures Step(r, products) == CreateStep(old(products), id, name, description, price, quantity)
    {
      id := FreshId(products.Keys);
      if NameTaken(products, name) {
        r := Err(NameInUse);
        return;
      }
      // The store generates the key on save: any key not yet stored.  This
      // choice stands for that generation and is not meant to be compiled.
      var newId :| newId !in products;
      var product := Product(newId, name, description, price, quantity);
      products := products[product.id := product];
      r, id := Ok(product), newId;
    }

    /** UpdateProductService.execute: look up, check the name, overwrite field by field, save. */
    method Update(id: Id, name: string, description: string, price: Number, quantity: Number)
      returns (r: Result<Product>)
      requires Valid()
      modifies this
      ensures Valid()
      ensures Step(r, products) == UpdateStep(old(products), id, name, description, price, quantity)
    {
      if id !in products {
        return Err(NotFound);
      }
      var product := products[id];
      if NameTaken(products, name) {
        return Err(NameInUse);
      }
      product := product.(name := name);
      product := product.(description := description);
      product := product.(price := price);
      product := product.(quantity := quantity);
      products := products[product.id := product];
      r := Ok(product);
    }
  }

  /** A created product can be shown afterwards with the same field values. */
  lemma CreatedIsShown(m: Table, id: Id, name: string, description: string, price: Number, quantity: Number)
    requires id !in m && !NameTaken(m, name)
    ensures CreateStep(m, id, name, description, price, quantity).result.Ok?
    ensures Show(CreateStep(m, id, name, description, price, quantity).after, id)
         == Ok(Product(id, name, description, price, quantity))
  {
  }

  /** Creating a second product with a name just used fails and leaves the first one as it was. */
  lemma SecondCreateConflicts(m: Table, id: Id, id2: Id, name: string, d: string, p: Number, q: Number,
                              d2: string, p2: Number, q2: Number)
    requires id !in m && !NameTaken(m, name)
    requires id2 !in CreateStep(m, id, name, d, p, q).after
    ensures var after := CreateStep(m, id, name, d, p, q).after;
      CreateStep(after, id2, name, d2, p2, q2) == Step(Err(NameInUse), after)
  {
    var after := CreateStep(m, id, name, d, p, q).after;
    assert after[id].name == name;
  }

  /** As written, an update that keeps the product's current name is rejected. */
  lemma UpdateKeepingNameRejected(m: Table, id: Id, description: string, price: Number, quantity: Number)
    requires id in m
    ensures UpdateStep(m, id, m[id].name, description, price, quantity) == Step(Err(NameInUse), m)
  {
  }

  /** After a successful update, showing the product returns exactly the request's values. */
  lemma UpdatedIsShown(m: Table, id: Id, name: string, description: string, price: Number, quantity: Number)
    requires Keyed(m) && id in m && !NameTaken(m, name)
    ensures Show(UpdateStep(m, id, name, description, price, quantity).after, id)
         == Ok(Product(id, name, description, price, quantity))
  {
  }
}
