/** Sequences of requests against one store, served one at a time: the
    invariant holds in every store reachable from the seeded one, the
    counter never goes back, and an id once deleted never reappears. */
module History {
  import opened Wrappers
  import opened ProductModel
  import opened ProductStore
  import opened StoreProperties

  /** The five routes of the controller, with their path ids and bodies. */
  datatype Request =
    | ListAll
    | Fetch(id: int)
    | Post(candidate: Product)
    | Put(id: int, candidate: Product)
    | Remove(id: int)

  datatype Response =
    | Listed(products: seq<Product>)
    | Fetched(found: Result<Product, Error>)
    | Created(created: Result<Product, Error>)
    | Done(outcome: Outcome<Error>)

  /** Serves one request. Reads change nothing; every request keeps the
      invariant and never moves the counter backwards. */
  function Step(s: Store, req: Request): (r: (Response, Store))
    ensures Valid(s) ==> Valid(r.1)
    ensures r.1.nextId >= s.nextId
    ensures req.ListAll? || req.Fetch? ==> r.1 == s
  {
    match req
    case ListAll => (Listed(GetAllProducts(s)), s)
    case Fetch(id) => (Fetched(GetProductById(s, id)), s)
    case Post(candidate) =>
      var (res, t) := CreateProduct(s, candidate);
      if Valid(s) then CreatePreservesValid(s, candidate); (Created(res), t)
      else (Created(res), t)
    case Put(id, candidate) =>
      var (res, t) := UpdateProduct(s, id, candidate);
      if Valid(s) then UpdatePreservesValid(s, id, candidate); (Done(res), t)
      else (Done(res), t)
    case Remove(id) =>
      var (res, t) := DeleteProduct(s, id);
      if Valid(s) then DeletePreservesValid(s, id); (Done(res), t)
      else (Done(res), t)
  }

  /** Serves the requests in order and returns the final store, which keeps
      the invariant and a counter no smaller than the first. */
  function Run(s: Store, reqs: seq<Request>): (t: Store)
    ensures Valid(s) ==> Valid(t)
    ensures t.nextId >= s.nextId
    decreases |reqs|
  {
    if |reqs| == 0 then s else Run(Step(s, reqs[0]).1, reqs[1..])
  }

  /** Every store reachable from the seeded one keeps the invariant. */
  lemma ReachableValid(reqs: seq<Request>)
    ensures Valid(Run(Initial(), reqs))
  {
  }

  /** An id that is not stored but lies below the counter stays absent after
      any one request: create mints the counter, update keeps every id,
      delete only removes. */
  lemma StepKeepsRetired(s: Store, req: Request, id: int)
    requires Valid(s) && !HasId(s.products, id) && id < s.nextId
    ensures var t := Step(s, req).1; !HasId(t.products, id) && id < t.nextId
  {
    match req
    case ListAll =>
    case Fetch(_) =>
    case Post(candidate) =>
      var (r, t) := CreateProduct(s, candidate);
      if r.Ok? {
        assert forall k :: 0 <= k < |t.products| ==> t.products[k].id != id;
      }
    case Put(key, candidate) =>
      var (r, t) := UpdateProduct(s, key, candidate);
      if r.Pass? {
        assert forall k :: 0 <= k < |t.products| ==> t.products[k].id == s.products[k].id;
      }
    case Remove(key) =>
      var (r, t) := DeleteProduct(s, key);
      if r.Pass? {
        RemovedAtSlices(s.products, FindIndex(s.products, key).value);
      }
  }

  /** The same over any number of requests. */
  lemma {:induction false} RunKeepsRetired(s: Store, reqs: seq<Request>, id: int)
    requires Valid(s) && !HasId(s.products, id) && id < s.nextId
    ensures var t := Run(s, reqs); !HasId(t.products, id) && id < t.nextId
    decreases |reqs|
  {
    if |reqs| > 0 {
      StepKeepsRetired(s, reqs[0], id);
      RunKeepsRetired(Step(s, reqs[0]).1, reqs[1..], id);
    }
  }

  /** Once a delete succeeds, looking the id up answers `NotFound` after any
      later requests whatever they are: the id is never handed out again. */
  lemma {:induction false} DeletedIdNeverReturns(s: Store, id: int, later: seq<Request>)
    requires Valid(s)
    requires DeleteProduct(s, id).0.Pass?
    ensures GetProductById(Run(DeleteProduct(s, id).1, later), id) == Err(NotFound)
  {
    var t := DeleteProduct(s, id).1;
    DeletePreservesValid(s, id);
    var i :| 0 <= i < |s.products| && s.products[i].id == id;
    RunKeepsRetired(t, later, id);
  }

  /** Every create along any history from the seeded store assigns an id
      strictly greater than every id stored at that moment. */
  lemma CreateAfterAnyHistoryIsFresh(reqs: seq<Request>, candidate: Product)
    ensures var s := Run(Initial(), reqs);
            var r := CreateProduct(s, candidate).0;
            r.Ok? ==> forall i :: 0 <= i < |s.products| ==> s.products[i].id < r.value.id
  {
  }

  /** The seeded laptop is found, deleted, and then not found. */
  lemma ScenarioDeleteSeeded()
    ensures GetProductById(Initial(), 1) == Ok(Laptop)
    ensures DeleteProduct(Initial(), 1).0 == Pass
    ensures GetProductById(DeleteProduct(Initial(), 1).1, 1) == Err(NotFound)
  {
    var s := Initial();
    assert s.products[0] == Laptop;
    GetProductByIdUnique(s, 0);
    GetAfterDelete(s, 1, 1);
  }

  /** Posting a new mouse to the seeded store files it under id 4. */
  lemma ScenarioCreateMouse()
    ensures CreateProduct(Initial(), Product(0, Some("Mouse"), 20.00, 5)).0 ==
            Ok(Product(4, Some("Mouse"), 20.00, 5))
  {
  }
}
