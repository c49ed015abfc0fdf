/** What the store's actions promise together: each keeps the store
    invariant, lookups see exactly the change an action made, and ids
    handed out by create are fresh. */
module StoreProperties {
  import opened Wrappers
  import opened ProductModel
  import opened ProductStore

  /** The lookup answers the first index whose record has the id. */
  lemma FindIndexIsFirst(ps: seq<Product>, id: int, j: int)
    requires 0 <= j < |ps| && ps[j].id == id
    requires forall k :: 0 <= k < j ==> ps[k].id != id
    ensures FindIndex(ps, id) == Some(j)
  {
    assert HasId(ps, id);
  }

  /** Appending a record leaves every earlier match in place; an id with
      no earlier match is found at the end exactly when the new record has it. */
  lemma FindIndexAppend(ps: seq<Product>, p: Product, other: int)
    ensures FindIndex(ps + [p], other) ==
            match FindIndex(ps, other)
            case Some(j) => Some(j)
            case None => if p.id == other then Some(|ps|) else None
  {
    var qs := ps + [p];
    assert forall k :: 0 <= k < |ps| ==> qs[k] == ps[k];
    match FindIndex(ps, other)
    case Some(j) =>
      FindIndexIsFirst(qs, other, j);
    case None =>
      if p.id == other {
        FindIndexIsFirst(qs, other, |ps|);
      } else {
        assert !HasId(qs, other);
      }
  }

  /** Replacing a record by one with the same id changes no lookup. */
  lemma FindIndexReplaceAt(ps: seq<Product>, i: int, q: Product, other: int)
    requires 0 <= i < |ps| && q.id == ps[i].id
    ensures FindIndex(ps[i := q], other) == FindIndex(ps, other)
  {
    var qs := ps[i := q];
    assert forall k :: 0 <= k < |ps| ==> qs[k].id == ps[k].id;
    match FindIndex(ps, other)
    case Some(j) =>
      FindIndexIsFirst(qs, other, j);
    case None =>
      assert !HasId(qs, other);
  }

  /** `rest` is `ps` with record `i` taken out, stated index by index. */
  predicate RemovedAt(ps: seq<Product>, i: int, rest: seq<Product>) {
    && 0 <= i < |ps|
    && |rest| == |ps| - 1
    && forall m :: 0 <= m < |rest| ==> rest[m] == ps[if m < i then m else m + 1]
  }

  lemma RemovedAtSlices(ps: seq<Product>, i: int)
    requires 0 <= i < |ps|
    ensures RemovedAt(ps, i, ps[..i] + ps[i + 1..])
  {
  }

  /** Taking out a record whose id differs from `other` keeps the lookup of
      `other` on the same record, one place earlier if it came after. */
  lemma FindIndexRemovedAt(ps: seq<Product>, i: int, rest: seq<Product>, other: int)
    requires RemovedAt(ps, i, rest) && ps[i].id != other
    ensures FindIndex(rest, other) ==
            match FindIndex(ps, other)
            case None => None
            case Some(j) => Some(if j < i then j else j - 1)
  {
    match FindIndex(ps, other)
    case Some(j) =>
      var k := if j < i then j else j - 1;
      assert rest[k] == ps[j];
      assert forall m :: 0 <= m < k ==> rest[m].id != other by {
        assert forall m :: 0 <= m < k ==> rest[m] == ps[if m < i then m else m + 1];
      }
      FindIndexIsFirst(rest, other, k);
    case None =>
      assert !HasId(rest, other);
  }

  /** Removing one record keeps the ids distinct, below the counter and
      valid, and the removed id is no longer present. */
  lemma RemoveAtKeepsInvariant(ps: seq<Product>, i: int, nextId: nat)
    requires 0 <= i < |ps|
    requires DistinctIds(ps) && IdsBelow(ps, nextId) && AllValid(ps)
    ensures var rest := ps[..i] + ps[i + 1..];
            DistinctIds(rest) && IdsBelow(rest, nextId) && AllValid(rest) && !HasId(rest, ps[i].id)
  {
  }

  /** A lookup in a store whose list gained a record at the end. */
  lemma LookupAfterAppend(s: Store, t: Store, p: Product, other: int)
    requires t.products == s.products + [p]
    ensures GetProductById(t, other) ==
            if HasId(s.products, other) then GetProductById(s, other)
            else if p.id == other then Ok(p)
            else Err(NotFound)
  {
    FindIndexAppend(s.products, p, other);
  }

  /** A lookup in a store whose list had record `i` replaced by `q` with the
      same id: the id now finds `q` if record `i` was its first match. */
  lemma LookupAfterReplace(s: Store, t: Store, i: nat, q: Product, other: int)
    requires i < |s.products| && q.id == s.products[i].id
    requires t.products == s.products[i := q]
    ensures GetProductById(t, other) ==
            if FindIndex(s.products, other) == Some(i) then Ok(q) else GetProductById(s, other)
  {
    FindIndexReplaceAt(s.products, i, q, other);
  }

  /** A lookup in a store whose list lost record `i`, for an id other than
      that record's. */
  lemma LookupAfterRemove(s: Store, t: Store, i: nat, other: int)
    requires RemovedAt(s.products, i, t.products) && s.products[i].id != other
    ensures GetProductById(t, other) == GetProductById(s, other)
  {
    FindIndexRemovedAt(s.products, i, t.products, other);
    match FindIndex(s.products, other)
    case None =>
    case Some(j) =>
      assert t.products[if j < i then j else j - 1] == s.products[j];
  }

  /** Create keeps the invariant, and the id it assigns is strictly greater
      than every id in the store, so it is not in use. */
  lemma CreatePreservesValid(s: Store, candidate: Product)
    requires Valid(s)
    ensures Valid(CreateProduct(s, candidate).1)
    ensures var r := CreateProduct(s, candidate).0;
            r.Ok? ==> (forall i :: 0 <= i < |s.products| ==> s.products[i].id < r.value.id) &&
                      !HasId(s.products, r.value.id)
  {
  }

  /** After a successful create, looking up the new id answers the created
      record, and every other id answers what it answered before. */
  lemma GetAfterCreate(s: Store, candidate: Product, id: int)
    requires Valid(s)
    ensures var (r, s') := CreateProduct(s, candidate);
            r.Ok? ==> GetProductById(s', r.value.id) == r &&
                      (id != r.value.id ==> GetProductById(s', id) == GetProductById(s, id))
  {
    var (r, s') := CreateProduct(s, candidate);
    if r.Ok? {
      CreatePreservesValid(s, candidate);
      LookupAfterAppend(s, s', r.value, r.value.id);
      LookupAfterAppend(s, s', r.value, id);
    }
  }

  /** Update keeps the invariant: the record keeps its id and the new
      fields are valid. */
  lemma UpdatePreservesValid(s: Store, id: int, candidate: Product)
    requires Valid(s)
    ensures Valid(UpdateProduct(s, id, candidate).1)
  {
    var (r, s') := UpdateProduct(s, id, candidate);
    if r.Pass? {
      assert forall k :: 0 <= k < |s'.products| ==> s'.products[k].id == s.products[k].id;
    }
  }

  /** After a successful update, looking up the id answers the body that was
      sent, and every other id answers what it answered before. */
  lemma GetAfterUpdate(s: Store, id: int, candidate: Product, other: int)
    ensures var (r, s') := UpdateProduct(s, id, candidate);
            r.Pass? ==> GetProductById(s', id) == Ok(candidate) &&
                        (other != id ==> GetProductById(s', other) == GetProductById(s, other))
  {
    var (r, s') := UpdateProduct(s, id, candidate);
    if r.Pass? {
      var i := FindIndex(s.products, id).value;
      LookupAfterReplace(s, s', i, candidate, id);
      LookupAfterReplace(s, s', i, candidate, other);
    }
  }

  /** Delete keeps the invariant, and the deleted id is no longer stored. */
  lemma DeletePreservesValid(s: Store, id: int)
    requires Valid(s)
    ensures Valid(DeleteProduct(s, id).1)
    ensures !HasId(DeleteProduct(s, id).1.products, id)
  {
    var (r, s') := DeleteProduct(s, id);
    if r.Pass? {
      RemoveAtKeepsInvariant(s.products, FindIndex(s.products, id).value, s.nextId);
    }
  }

  /** After a delete, looking up the id answers `NotFound`, and every other
      id answers what it answered before. */
  lemma GetAfterDelete(s: Store, id: int, other: int)
    requires Valid(s)
    ensures var s' := DeleteProduct(s, id).1;
            GetProductById(s', id) == Err(NotFound) &&
            (other != id ==> GetProductById(s', other) == GetProductById(s, other))
  {
    DeletePreservesValid(s, id);
    var found := FindIndex(s.products, id);
    if found.Some? && other != id {
      RemovedAtSlices(s.products, found.value);
      LookupAfterRemove(s, DeleteProduct(s, id).1, found.value, other);
    }
  }

  /** Update checks the id match first: a body whose id differs from the
      path id is refused with `IdMismatch` whatever the store holds and
      whatever the body contains. */
  lemma UpdateMismatchFirst(s: Store, t: Store, id: int, candidate: Product)
    requires id != candidate.id
    ensures UpdateProduct(s, id, candidate) == (Fail(IdMismatch), s)
    ensures UpdateProduct(s, id, candidate).0 == UpdateProduct(t, id, candidate).0
  {
  }

  /** Invalid fields are reported before existence is checked: with matching
      ids, an invalid body gets `ValidationError` whether or not the id is
      stored. */
  lemma UpdateValidationBeforeLookup(s: Store, t: Store, id: int, candidate: Product)
    requires id == candidate.id && !IsValid(candidate)
    ensures UpdateProduct(s, id, candidate).0 == Fail(ValidationError)
    ensures UpdateProduct(s, id, candidate).0 == UpdateProduct(t, id, candidate).0
  {
  }
}
