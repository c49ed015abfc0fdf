# Product store — a Dafny model

This project models the core of a small ASP.NET product API. The core is an
in-memory store of `Product` records and the validation rules those records
must pass. The store is an ordered list of products plus the counter that
mints ids. It is seeded with ids 1, 2 and 3 and counter 4. It serves five
actions: list all, get by id, create, update and delete. Each action answers
with a success, or with one of three refusals: `ValidationError`, `NotFound`
or `IdMismatch`. HTTP status codes, routing and JSON are not modelled.

Layout:

- `wrappers.dfy`: module `Wrappers`. It holds `Option` (a C# `null` is
  `None`), `Result` and `Outcome`.
- `product.dfy`: module `ProductModel`. It holds the `Product` record and the
  predicates `NameValid`, `PriceValid`, `QuantityValid` and `IsValid`. These
  are what the data annotations on the record check.
- `store.dfy`: module `ProductStore`. It holds the `Store` datatype, the
  invariant `Valid`, the seeded store `Initial`, the first-match lookup
  `FindIndex` and the five actions as pure functions from a store to an
  answer and the next store.
- `store_properties.dfy`: module `StoreProperties`. Each action keeps the
  invariant. Lookups see exactly the change an action made. Create hands out
  fresh ids. Update checks its conditions in a fixed order.
- `catalog.dfy`: module `Catalog`. It is an independent reference
  specification: a map from id to product. Refinement lemmas show that the
  list-based actions answer the same and end in the same map.
- `history.dfy`: module `History`. It covers sequences of requests. The
  invariant holds in every reachable store. The counter never goes back. A
  deleted id never comes back. It also replays two concrete request
  sequences.

Modelling decisions:

- The store invariant `Valid` says four things. The counter is positive.
  Ids are pairwise distinct. Every id is between 1 and the counter, exclusive
  of the counter. Every stored record passes validation.
- The name rule combines `[Required]` and `[StringLength(100, MinimumLength = 3)]`.
  `[Required]` refuses `null`, the empty string and all-white-space strings,
  using the white-space set of `char.IsWhiteSpace`. `[StringLength]` counts
  UTF-16 code units (`string.Length`), so `Utf16Length` models that count. A
  name of two characters outside the Basic Multilingual Plane is four code
  units long and is therefore valid.
- The price rule is `[Range(0.01, double.MaxValue)]` with both bounds
  inclusive, so 0.01 itself is valid. A price of at least 0.01 is sufficient
  because every `decimal` is below `double.MaxValue`. Prices are exact
  `real`s limited to the `decimal` range.
- The quantity rule is `[Range(1, int.MaxValue)]`. Quantities are 32-bit
  (`Int32`), so the upper bound always holds.
- Update checks its conditions in the order the action body is written:
  first the id match, then the model state, then whether the id exists.
- Lookups take the first record with the id, as `FirstOrDefault` does.
  Update and delete act on that record. In a valid store it is the only
  record with that id.
- The source's own messages differ from its rules in two places. The model
  follows the rules.
  - The price message says the price must be greater than zero. The rule
    accepts exactly the prices of at least 0.01, including 0.01 itself.
  - The name message speaks of 3 to 100 characters. The rule counts UTF-16
    code units, not characters, and `[Required]` also refuses blank names.

## Model

| member | source | states |
|---|---|---|
| ProductModel.Utf16Length | WebApi/Models/Product.cs:21 | The length that `[StringLength]` measures is between the number of characters and twice that number |
| ProductModel.EncodeChar | WebApi/Models/Product.cs:21 | A character is encoded as one 16-bit unit equal to it, or as a high surrogate followed by a low surrogate that decode back to it |
| ProductModel.Utf16LengthIsEncodedLength | WebApi/Models/Product.cs:21 | The measured length of a string is the number of units in its UTF-16 encoding |
| ProductModel.Utf16LengthAppend | WebApi/Models/Product.cs:21 | The measured length of a concatenation is the sum of the measured lengths of its parts |
| ProductModel.NameValid | WebApi/Models/Product.cs:20-22 | A valid name is present and has between 2 and 100 characters; it is not blank and is 3 to 100 UTF-16 code units long |
| ProductModel.PriceValid | WebApi/Models/Product.cs:28-30 | A price is valid exactly when it is at least 0.01: the lower bound is inclusive and the `double.MaxValue` bound never binds for a `decimal` |
| ProductModel.QuantityValid | WebApi/Models/Product.cs:36-38 | A quantity is valid exactly when it is at least 1: the `int.MaxValue` bound never binds for an `int` |
| ProductModel.IsValid | WebApi/Models/Product.cs:20-38 | What `ModelState.IsValid` reports: a valid product has a name, a positive price and a positive quantity |
| ProductModel.Utf16LengthOfBmp | WebApi/Models/Product.cs:21 | For a string of Basic-Multilingual-Plane characters, the measured length equals the number of characters |
| ProductModel.NameValidCharacterBounds | WebApi/Models/Product.cs:20-22 | A valid name has between 2 and 100 characters |
| ProductModel.NameValidBmp | WebApi/Models/Product.cs:20-22 | For a Basic-Multilingual-Plane name, validity is exactly "not blank and 3 to 100 characters long" |
| ProductModel.TwoAstralCharactersAreAValidName | WebApi/Models/Product.cs:21 | A two-character name made of astral characters passes the length rule |
| ProductModel.ValidityIgnoresId | WebApi/Models/Product.cs:14 | Changing only the id never changes validity |
| ProductModel.IsValidIff | WebApi/Models/Product.cs:20-38 | A product is valid exactly when the name, price and quantity rules all hold |
| ProductStore.Valid | WebApi/Controllers/ProductsController.cs:14-21 | The store invariant: the counter is positive, ids are distinct and between 1 and the counter, and all records are valid; in a valid store each record is the one a lookup of its id finds |
| ProductStore.Initial | WebApi/Controllers/ProductsController.cs:14-21 | The seeded store holds exactly the ids 1, 2 and 3, its counter is 4, and it satisfies the invariant |
| ProductStore.SeedValid | WebApi/Controllers/ProductsController.cs:14-21 | The three seeded records with counter 4 have distinct ids below the counter and all pass validation |
| ProductStore.FindIndex | WebApi/Controllers/ProductsController.cs:54 | The lookup finds the first record with the id, and finds nothing exactly when no record has the id |
| ProductStore.FindIndexDistinct | WebApi/Controllers/ProductsController.cs:54 | When ids are distinct, the lookup of a stored record's id finds that record's position |
| StoreProperties.FindIndexIsFirst | WebApi/Controllers/ProductsController.cs:54 | A position holding the id, with no earlier position holding it, is what the lookup finds |
| StoreProperties.FindIndexAppend | WebApi/Controllers/ProductsController.cs:98 | After a record is appended, an id found before is found at the same position; an id not found before is found at the end exactly when the new record has it |
| StoreProperties.FindIndexReplaceAt | WebApi/Controllers/ProductsController.cs:150-158 | Replacing a record with one of the same id changes no lookup |
| StoreProperties.FindIndexRemovedAt | WebApi/Controllers/ProductsController.cs:186 | After one record is removed, any other id is found on the same record, one position earlier if it came after the removed one, and an id missing before is still missing |
| ProductStore.GetAllProducts | WebApi/Controllers/ProductsController.cs:34-37 | The list holds every stored record exactly as often as the store does; an id appears in it exactly when a lookup finds it; in a valid store, each listed record is what its lookup returns |
| ProductStore.GetProductById | WebApi/Controllers/ProductsController.cs:52-62 | Found exactly when some record has the id, and the result is a stored record with that id; otherwise `NotFound` |
| ProductStore.GetProductByIdUnique | WebApi/Controllers/ProductsController.cs:54-61 | In a valid store, looking up the id of any stored record returns exactly that record |
| ProductStore.CreateProduct | WebApi/Controllers/ProductsController.cs:88-106 | Refused with `ValidationError` and no change exactly when the candidate is invalid; otherwise the client id is replaced by the old counter, the counter grows by one and the record goes at the end |
| ProductStore.UpdateProduct | WebApi/Controllers/ProductsController.cs:136-162 | The checks run in a fixed order: `IdMismatch` on differing ids, then `ValidationError`, then `NotFound`; a failure changes nothing; success replaces the one matching record in place with the body and keeps the counter |
| ProductStore.DeleteProduct | WebApi/Controllers/ProductsController.cs:177-190 | Succeeds exactly when the id is stored; `NotFound` changes nothing; success removes the first matching record, keeps the others in their relative order and keeps the counter |
| StoreProperties.RemoveAtKeepsInvariant | WebApi/Controllers/ProductsController.cs:186 | Removing one record keeps the ids distinct, below the counter and valid, and the removed id is no longer present |
| StoreProperties.LookupAfterAppend | WebApi/Controllers/ProductsController.cs:98 | After a record is appended, ids stored before answer as before, the new record's id (if new) answers that record, and other ids answer `NotFound` |
| StoreProperties.LookupAfterReplace | WebApi/Controllers/ProductsController.cs:150-158 | After the first match of an id is replaced in place, that id answers the replacement and every other id answers as before |
| StoreProperties.LookupAfterRemove | WebApi/Controllers/ProductsController.cs:186 | After one record is removed, every id other than the removed record's answers as before |
| StoreProperties.CreatePreservesValid | WebApi/Controllers/ProductsController.cs:96-98 | Create keeps the invariant, and the new id is greater than every stored id, so it is not in use |
| StoreProperties.GetAfterCreate | WebApi/Controllers/ProductsController.cs:97-98 | After a successful create, a lookup of the new id returns the created record and every other id answers as before |
| StoreProperties.UpdatePreservesValid | WebApi/Controllers/ProductsController.cs:150-158 | Update keeps the invariant |
| StoreProperties.GetAfterUpdate | WebApi/Controllers/ProductsController.cs:150-158 | After a successful update, a lookup of the id returns the body that was sent and every other id answers as before |
| StoreProperties.DeletePreservesValid | WebApi/Controllers/ProductsController.cs:180-186 | Delete keeps the invariant, and the id is absent afterwards |
| StoreProperties.GetAfterDelete | WebApi/Controllers/ProductsController.cs:180-186 | After a delete, a lookup of the id answers `NotFound` and every other id answers as before |
| StoreProperties.UpdateMismatchFirst | WebApi/Controllers/ProductsController.cs:139-142 | Differing ids give `IdMismatch` with no change, whatever the store holds and whatever the body contains |
| StoreProperties.UpdateValidationBeforeLookup | WebApi/Controllers/ProductsController.cs:144-154 | With matching ids, an invalid body gives `ValidationError` whether or not the id is stored |
| Catalog.Create | WebApi/Controllers/ProductsController.cs:91-98 | Reference create on a map: it keeps the map well formed, and the key it adds was not in use |
| Catalog.Update | WebApi/Controllers/ProductsController.cs:139-158 | Reference update on a map: it keeps the map well formed and never changes the set of keys |
| Catalog.Delete | WebApi/Controllers/ProductsController.cs:180-186 | Reference delete on a map: it keeps the map well formed and removes exactly the given key |
| Catalog.Abstract | WebApi/Controllers/ProductsController.cs:52-61 | The map a store stands for has the same counter and answers every lookup as get by id on the list does; it is built from those lookups, so this agreement is its definition |
| Catalog.AbstractWf | WebApi/Controllers/ProductsController.cs:14-21 | A valid store stands for a well-formed map: every entry is keyed by its own id, lies below the counter and is valid |
| Catalog.GetDeterminesCatalog | WebApi/Controllers/ProductsController.cs:54 | Two maps with the same counter that answer every lookup alike are equal |
| Catalog.CreateRefines | WebApi/Controllers/ProductsController.cs:91-98 | In a valid store, create on the list answers as the reference create does, and the resulting store stands for the map the reference produces |
| Catalog.UpdateRefines | WebApi/Controllers/ProductsController.cs:139-158 | In a valid store, update on the list answers as the reference update does, and the resulting store stands for the map the reference produces |
| Catalog.GetAfterUpdateRefines | WebApi/Controllers/ProductsController.cs:150-158 | After a successful update, the new store and the reference update's map answer any id alike |
| Catalog.GetAfterDeleteRefines | WebApi/Controllers/ProductsController.cs:180-186 | In a valid store, after a successful delete the new store and the reference delete's map answer any id alike |
| Catalog.DeleteRefines | WebApi/Controllers/ProductsController.cs:180-186 | In a valid store, delete on the list answers as the reference delete does, and the resulting store stands for the map the reference produces |
| History.Step | WebApi/Controllers/ProductsController.cs:34-190 | Serving any one request keeps the invariant and never lowers the counter; the two reads change nothing |
| History.Run | WebApi/Controllers/ProductsController.cs:14-21 | After any sequence of requests the invariant still holds and the counter is no lower |
| History.ReachableValid | WebApi/Controllers/ProductsController.cs:14-21 | Every store reachable from the seeded one satisfies the invariant |
| History.StepKeepsRetired | WebApi/Controllers/ProductsController.cs:97 | An id below the counter that is not stored stays absent after any request |
| History.RunKeepsRetired | WebApi/Controllers/ProductsController.cs:97 | An id below the counter that is not stored stays absent after any sequence of requests |
| History.DeletedIdNeverReturns | WebApi/Controllers/ProductsController.cs:180-189 | After a successful delete, any sequence of later requests leaves a lookup of that id answering `NotFound`; the id is never reissued |
| History.CreateAfterAnyHistoryIsFresh | WebApi/Controllers/ProductsController.cs:97 | After any history from the seeded store, a successful create assigns an id greater than every stored id |
| History.ScenarioDeleteSeeded | WebApi/Controllers/ProductsController.cs:16 | The seeded laptop with id 1 is found, its delete succeeds, and afterwards the lookup answers `NotFound` |
| History.ScenarioCreateMouse | WebApi/Controllers/ProductsController.cs:96-98 | Posting a valid mouse to the seeded store creates it under id 4, ignoring the id 0 in the body |

## Left out

- HTTP plumbing is not modelled. This covers routing, the mapping of the
  refusals to status codes 400 and 404, the 201/204 success codes, the
  `CreatedAtAction` Location header, JSON binding and the error-message
  strings.
- Binding failures are not modelled: malformed JSON, or a number too large
  for `int` or `decimal`. The framework turns these into model-state errors
  before validation runs.
- The automatic validation filter of `[ApiController]` is not modelled. It
  may answer an invalid body with 400 before the update action runs. The
  model follows the order written in the action: id match first.
- `[Required]` on the non-nullable `Price` and `Quantity` is not modelled
  because it always holds. A missing field binds to 0, which the range rule
  then refuses.
- PriceValid: compares the exact `decimal` value with 0.01. The source
  converts it to `double` first, so values within about 1e-18 of the bound
  may be judged differently. The 28-digit scale limit of `decimal` is also
  not modelled.
- The counter is a `nat` and ids are unbounded integers. The source's
  `_nextProductId++` is a 32-bit `int` and would wrap after about 2^31 creates.
- Concurrency is not modelled. The static list and counter are shared by
  all requests with no locking. The model serves requests one at a time.
- Reference aliasing is not modelled. The source returns the live list
  and the stored object, and update mutates a shared object in place. The
  model uses values, and the updated record equals the request body.
- GetAllProducts: its contract states that the list holds the stored
  records, each as often as it is stored, but not that they come in the
  stored order. The order is fixed by
  `CreateProduct`, which appends at the end, and `DeleteProduct`, which keeps
  relative order.
- The state is lost on restart, and nothing persists. Neither is modelled.
