/** The in-memory product store behind the products controller: an ordered
    list of products and the counter that mints ids, with the five actions
    (list all, get by id, create, update, delete) as pure functions from a
    store to an answer and the next store. HTTP status codes are abstracted
    to `Ok`/`Pass` and the three `Error` kinds. */
module ProductStore {
  import opened Wrappers
  import opened ProductModel

  /** The three ways an action can refuse a request. */
  datatype Error = ValidationError | NotFound | IdMismatch

  /** The static `_products` list and `_nextProductId` counter. */
  datatype Store = Store(products: seq<Product>, nextId: nat)

  predicate HasId(ps: seq<Product>, id: int) {
    exists i :: 0 <= i < |ps| && ps[i].id == id
  }

  /** No two stored products share an id. */
  predicate DistinctIds(ps: seq<Product>) {
    forall i, j :: 0 <= i < j < |ps| ==> ps[i].id != ps[j].id
  }

  /** Every stored id was minted earlier: positive and below the counter. */
  predicate IdsBelow(ps: seq<Product>, nextId: nat) {
    forall i :: 0 <= i < |ps| ==> 1 <= ps[i].id < nextId
  }

  /** Every stored product passes validation. */
  predicate AllValid(ps: seq<Product>) {
    forall i :: 0 <= i < |ps| ==> IsValid(ps[i])
  }

  /** The store invariant: the counter is positive; ids are distinct and all
      below the counter (so the counter never hands out an id in use or used
      before); all records are valid. In a valid store every record is the
      one a lookup of its id finds. */
  predicate Valid(s: Store): (b: bool)
    ensures b ==> forall i {:trigger FindIndex(s.products, s.products[i].id)} ::
                    0 <= i < |s.products| ==> FindIndex(s.products, s.products[i].id) == Some(i)
  {
    FindIndexDistinctAll(s.products);
    && s.nextId >= 1
    && DistinctIds(s.products)
    && IdsBelow(s.products, s.nextId)
    && AllValid(s.products)
  }

  /** The three seeded products. */
  const Laptop := Product(1, Some("Laptop Dell XPS"), 1200.50, 10)
  const Mouse := Product(2, Some("Mouse Logitech MX Master"), 75.99, 50)
  const Keyboard := Product(3, Some("Teclado Mecánico HyperX"), 110.00, 25)

  const Seed: seq<Product> := [Laptop, Mouse, Keyboard]

  /** The seeded store: three products with ids 1, 2 and 3, counter 4. */
  function Initial(): (s: Store)
    ensures Valid(s)
    ensures s.nextId == 4
    ensures forall id :: HasId(s.products, id) <==> id in {1, 2, 3}
  {
    SeedValid();
    SeedIds();
    Store(Seed, 4)
  }

  /** The seeded list satisfies the store invariant for counter 4. */
  lemma SeedValid()
    ensures Valid(Store(Seed, 4))
  {
    SeedDistinct();
    SeedIdsBelow();
    SeedAllValid();
  }

  lemma SeedDistinct()
    ensures DistinctIds(Seed)
  {
  }

  lemma SeedIdsBelow()
    ensures IdsBelow(Seed, 4)
  {
  }

  lemma SeedAllValid()
    ensures AllValid(Seed)
  {
    SeedProductsValid();
    AllValidOfThree(Laptop, Mouse, Keyboard);
  }

  lemma AllValidOfThree(a: Product, b: Product, c: Product)
    requires IsValid(a) && IsValid(b) && IsValid(c)
    ensures AllValid([a, b, c])
  {
  }

  /** The seeded list holds exactly the ids 1, 2 and 3. */
  lemma SeedIds()
    ensures forall id :: HasId(Seed, id) <==> id in {1, 2, 3}
  {
    assert Seed[0].id == 1 && Seed[1].id == 2 && Seed[2].id == 3;
  }

  /** A name of Basic-Multilingual-Plane characters that starts with a
      visible character and has 3 to 100 characters passes the name rule. */
  lemma BmpNameValid(s: string)
    requires forall i :: 0 <= i < |s| ==> s[i] as int <= 0xFFFF
    requires 3 <= |s| <= 100 && !IsWhiteSpace(s[0])
    ensures NameValid(Some(s))
  {
    Utf16LengthOfBmp(s);
  }

  /** The three seeded products pass validation. */
  lemma SeedProductsValid()
    ensures IsValid(Laptop) && IsValid(Mouse) && IsValid(Keyboard)
  {
    LaptopNameValid();
    MouseNameValid();
    KeyboardNameValid();
  }

  lemma LaptopNameValid()
    ensures NameValid(Laptop.name)
  {
    var s := Laptop.name.value;
    assert |s| == 15;
    assert forall i :: 0 <= i < |s| ==> s[i] as int <= 0xFFFF;
    BmpNameValid(s);
  }

  lemma MouseNameValid()
    ensures NameValid(Mouse.name)
  {
    var s := Mouse.name.value;
    assert |s| == 24;
    assert forall i :: 0 <= i < |s| ==> s[i] as int <= 0xFFFF;
    BmpNameValid(s);
  }

  lemma KeyboardNameValid()
    ensures NameValid(Keyboard.name)
  {
    var s := Keyboard.name.value;
    assert |s| == 23;
    assert forall i :: 0 <= i < |s| ==> s[i] as int <= 0xFFFF;
    BmpNameValid(s);
  }

  /** `FirstOrDefault(p => p.Id == id)`: the index of the first product with
      the id, or `None` when there is none. */
  function FindIndex(ps: seq<Product>, id: int): (r: Option<nat>)
    ensures r.Some? ==> r.value < |ps| && ps[r.value].id == id
    ensures r.Some? ==> forall j :: 0 <= j < r.value ==> ps[j].id != id
    ensures r.None? <==> !HasId(ps, id)
    decreases |ps|
  {
    if |ps| == 0 then None
    else if ps[0].id == id then Some(0)
    else
      match FindIndex(ps[1..], id)
      case None => None
      case Some(k) => Some(k + 1)
  }

  /** With distinct ids, the product at index `i` is the one found for its id. */
  lemma FindIndexDistinct(ps: seq<Product>, i: int)
    requires DistinctIds(ps)
    requires 0 <= i < |ps|
    ensures FindIndex(ps, ps[i].id) == Some(i)
  {
  }

  /** `FindIndexDistinct` for every index at once. */
  lemma FindIndexDistinctAll(ps: seq<Product>)
    ensures DistinctIds(ps) ==> forall i :: 0 <= i < |ps| ==> FindIndex(ps, ps[i].id) == Some(i)
  {
    if DistinctIds(ps) {
      forall i | 0 <= i < |ps|
        ensures FindIndex(ps, ps[i].id) == Some(i)
      {
        FindIndexDistinct(ps, i);
      }
    }
  }

  /** GET /products: the whole list, in insertion order minus deletions.
      Every listed product is what a lookup of its id answers. */
  function GetAllProducts(s: Store): (r: seq<Product>)
    ensures forall id :: HasId(r, id) <==> GetProductById(s, id).Ok?
    ensures multiset(r) == multiset(s.products)
    ensures Valid(s) ==> forall i :: 0 <= i < |r| ==> GetProductById(s, r[i].id) == Ok(r[i])
  {
    s.products
  }

  /** GET /products/{id}: the first product with the id, or `NotFound`. */
  function GetProductById(s: Store, id: int): (r: Result<Product, Error>)
    ensures r.Ok? <==> HasId(s.products, id)
    ensures r.Ok? ==> r.value.id == id && r.value in s.products
    ensures r.Err? ==> r.error == NotFound
  {
    match FindIndex(s.products, id)
    case None => Err(NotFound)
    case Some(i) => Ok(s.products[i])
  }

  /** In a valid store a lookup answers the one record that has the id. */
  lemma GetProductByIdUnique(s: Store, i: int)
    requires Valid(s) && 0 <= i < |s.products|
    ensures GetProductById(s, s.products[i].id) == Ok(s.products[i])
  {
    FindIndexDistinct(s.products, i);
  }

  /** POST /products: a candidate failing validation is refused with nothing
      changed; otherwise its id is replaced by the counter, the counter
      advances by one and the record is appended at the end. */
  function CreateProduct(s: Store, candidate: Product): (r: (Result<Product, Error>, Store))
    ensures r.0.Err? <==> !IsValid(candidate)
    ensures r.0.Err? ==> r.0.error == ValidationError && r.1 == s
    ensures r.0.Ok? ==> r.0.value == candidate.(id := s.nextId)
    ensures r.0.Ok? ==> r.1.nextId == s.nextId + 1
    ensures r.0.Ok? ==> r.1.products == s.products + [r.0.value]
  {
    if !IsValid(candidate) then
      (Err(ValidationError), s)
    else
      var p := candidate.(id := s.nextId);
      (Ok(p), Store(s.products + [p], s.nextId + 1))
  }

  /** PUT /products/{id}: checks in order that the path id matches the body
      id, that the body is valid, and that the id exists; any failure
      changes nothing. On success only the matching record changes, taking
      the body's name, price and quantity while keeping its id and place. */
  function UpdateProduct(s: Store, id: int, candidate: Product): (r: (Outcome<Error>, Store))
    ensures id != candidate.id ==> r.0 == Fail(IdMismatch)
    ensures id == candidate.id && !IsValid(candidate) ==> r.0 == Fail(ValidationError)
    ensures id == candidate.id && IsValid(candidate) && !HasId(s.products, id) ==> r.0 == Fail(NotFound)
    ensures r.0.Pass? <==> id == candidate.id && IsValid(candidate) && HasId(s.products, id)
    ensures r.0.Fail? ==> r.1 == s
    ensures r.0.Pass? ==> r.1.nextId == s.nextId
    ensures r.0.Pass? ==>
              FindIndex(s.products, id).Some? &&
              r.1.products == s.products[FindIndex(s.products, id).value := candidate]
  {
    if id != candidate.id then
      (Fail(IdMismatch), s)
    else if !IsValid(candidate) then
      (Fail(ValidationError), s)
    else
      match FindIndex(s.products, id)
      case None => (Fail(NotFound), s)
      case Some(i) =>
        var existing := s.products[i];
        var updated := existing.(name := candidate.name, price := candidate.price,
                                 quantity := candidate.quantity);
        (Pass, s.(products := s.products[i := updated]))
  }

  /** DELETE /products/{id}: `NotFound` with nothing changed when the id is
      absent; otherwise that one record is removed, the others keep their
      relative order, and the counter stays put. */
  function DeleteProduct(s: Store, id: int): (r: (Outcome<Error>, Store))
    ensures r.0.Pass? <==> HasId(s.products, id)
    ensures r.0.Fail? ==> r.0.error == NotFound && r.1 == s
    ensures r.0.Pass? ==> r.1.nextId == s.nextId
    ensures r.0.Pass? ==>
              FindIndex(s.products, id).Some? &&
              var i := FindIndex(s.products, id).value;
              r.1.products == s.products[..i] + s.products[i + 1..]
  {
    match FindIndex(s.products, id)
    case None => (Fail(NotFound), s)
    case Some(i) => (Pass, s.(products := s.products[..i] + s.products[i + 1..]))
  }
}
