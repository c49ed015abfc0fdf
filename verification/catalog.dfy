/** A reference specification of the store that forgets the list order: a
    map from id to product plus the counter. Each action is defined directly
    on the map, and the refinement lemmas show that the list-based actions
    answer the same and leave a store whose map is the one the reference
    action produces. */
module Catalog {
  import opened Wrappers
  import opened ProductModel
  import opened ProductStore
  import opened StoreProperties

  datatype Catalog = Catalog(items: map<int, Product>, nextId: nat)

  /** Each entry is keyed by its own id, minted below the counter, and valid. */
  predicate Wf(c: Catalog) {
    && c.nextId >= 1
    && forall id :: id in c.items ==> c.items[id].id == id && 1 <= id < c.nextId && IsValid(c.items[id])
  }

  /** The entry for the id, or `NotFound`. */
  function Get(c: Catalog, id: int): (r: Result<Product, Error>)
    ensures r.Ok? <==> id in c.items
  {
    if id in c.items then Ok(c.items[id]) else Err(NotFound)
  }

  /** Refuses an invalid candidate; otherwise files it under the counter,
      which it then advances. The new key was not in use. */
  function Create(c: Catalog, candidate: Product): (r: (Result<Product, Error>, Catalog))
    ensures Wf(c) ==> Wf(r.1)
    ensures Wf(c) && r.0.Ok? ==> r.0.value.id !in c.items && r.0.value.id in r.1.items
  {
    if !IsValid(candidate) then
      (Err(ValidationError), c)
    else
      var p := candidate.(id := c.nextId);
      (Ok(p), Catalog(c.items[c.nextId := p], c.nextId + 1))
  }

  /** Refuses on id mismatch, then on invalid fields, then on a missing id;
      otherwise replaces the entry. The set of keys never changes. */
  function Update(c: Catalog, id: int, candidate: Product): (r: (Outcome<Error>, Catalog))
    ensures Wf(c) ==> Wf(r.1)
    ensures r.1.items.Keys == c.items.Keys
  {
    if id != candidate.id then
      (Fail(IdMismatch), c)
    else if !IsValid(candidate) then
      (Fail(ValidationError), c)
    else if id !in c.items then
      (Fail(NotFound), c)
    else
      (Pass, c.(items := c.items[id := candidate]))
  }

  /** Refuses a missing id; otherwise drops that one key. */
  function Delete(c: Catalog, id: int): (r: (Outcome<Error>, Catalog))
    ensures Wf(c) ==> Wf(r.1)
    ensures r.1.items.Keys == c.items.Keys - {id}
  {
    if id !in c.items then
      (Fail(NotFound), c)
    else
      (Pass, c.(items := c.items - {id}))
  }

  /** The ids held by a list. */
  function Ids(ps: seq<Product>): set<int> {
    set i | 0 <= i < |ps| :: ps[i].id
  }

  /** The catalog a store stands for: every stored id mapped to the record a
      lookup finds. Lookups agree on every id. */
  function Abstract(s: Store): (c: Catalog)
    ensures c.nextId == s.nextId
    ensures forall id :: Get(c, id) == GetProductById(s, id)
  {
    var items := map id | id in Ids(s.products) :: GetProductById(s, id).value;
    assert forall id :: id in Ids(s.products) <==> HasId(s.products, id) by {
      forall id | HasId(s.products, id)
        ensures id in Ids(s.products)
      {
        var i :| 0 <= i < |s.products| && s.products[i].id == id;
      }
    }
    Catalog(items, s.nextId)
  }

  /** Lookups determine a catalog's entries. */
  lemma GetDeterminesCatalog(c: Catalog, d: Catalog)
    requires c.nextId == d.nextId
    requires forall id :: Get(c, id) == Get(d, id)
    ensures c == d
  {
    assert c.items.Keys == d.items.Keys by {
      forall id ensures id in c.items <==> id in d.items {
        assert Get(c, id).Ok? == Get(d, id).Ok?;
      }
    }
    forall id | id in c.items
      ensures c.items[id] == d.items[id]
    {
      assert Get(c, id) == Get(d, id);
    }
  }

  /** A valid store stands for a well-formed catalog. */
  lemma AbstractWf(s: Store)
    requires Valid(s)
    ensures Wf(Abstract(s))
  {
  }

  /** Create refines: same answer, and the new store stands for the catalog
      the reference create produces. */
  lemma CreateRefines(s: Store, candidate: Product)
    requires Valid(s)
    ensures CreateProduct(s, candidate).0 == Create(Abstract(s), candidate).0
    ensures Abstract(CreateProduct(s, candidate).1) == Create(Abstract(s), candidate).1
  {
    var (r, s') := CreateProduct(s, candidate);
    var (ra, c') := Create(Abstract(s), candidate);
    if r.Ok? {
      forall id
        ensures Get(Abstract(s'), id) == Get(c', id)
      {
        GetAfterCreate(s, candidate, id);
      }
      GetDeterminesCatalog(Abstract(s'), c');
    }
  }

  /** One id's lookup after a successful update, on both sides. */
  lemma GetAfterUpdateRefines(s: Store, id: int, candidate: Product, other: int)
    requires UpdateProduct(s, id, candidate).0.Pass?
    ensures Get(Abstract(UpdateProduct(s, id, candidate).1), other) ==
            Get(Update(Abstract(s), id, candidate).1, other)
  {
    GetAfterUpdate(s, id, candidate, other);
    assert Get(Abstract(s), id).Ok?;
  }

  /** Update refines: same answer, and the new store stands for the catalog
      the reference update produces. */
  lemma UpdateRefines(s: Store, id: int, candidate: Product)
    requires Valid(s)
    ensures UpdateProduct(s, id, candidate).0 == Update(Abstract(s), id, candidate).0
    ensures Abstract(UpdateProduct(s, id, candidate).1) == Update(Abstract(s), id, candidate).1
  {
    var (r, s') := UpdateProduct(s, id, candidate);
    var (ra, c') := Update(Abstract(s), id, candidate);
    assert Get(Abstract(s), id) == GetProductById(s, id);
    if r.Pass? {
      forall other
        ensures Get(Abstract(s'), other) == Get(c', other)
      {
        GetAfterUpdateRefines(s, id, candidate, other);
      }
      GetDeterminesCatalog(Abstract(s'), c');
    }
  }

  /** One id's lookup after a successful delete, on both sides. */
  lemma GetAfterDeleteRefines(s: Store, id: int, other: int)
    requires Valid(s) && DeleteProduct(s, id).0.Pass?
    ensures Get(Abstract(DeleteProduct(s, id).1), other) == Get(Delete(Abstract(s), id).1, other)
  {
    GetAfterDelete(s, id, other);
    assert Get(Abstract(s), id).Ok?;
  }

  /** Delete refines: same answer, and the new store stands for the catalog
      the reference delete produces. */
  lemma DeleteRefines(s: Store, id: int)
    requires Valid(s)
    ensures DeleteProduct(s, id).0 == Delete(Abstract(s), id).0
    ensures Abstract(DeleteProduct(s, id).1) == Delete(Abstract(s), id).1
  {
    var (r, s') := DeleteProduct(s, id);
    var (ra, c') := Delete(Abstract(s), id);
    assert Get(Abstract(s), id) == GetProductById(s, id);
    if r.Pass? {
      forall other
        ensures Get(Abstract(s'), other) == Get(c', other)
      {
        GetAfterDeleteRefines(s, id, other);
      }
      GetDeterminesCatalog(Abstract(s'), c');
    }
  }
}
