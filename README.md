# Pharmacy medicine store, modelled in Dafny

The pharmacy service keeps its medicines in one package-level ordered list
and exposes five HTTP handlers over it: list all, get by id, create, update
and delete. This project models that store and those handlers.

- `medicines.dfy` (module `Medicines`): the `Medicine` record, the initial
  three-record store, and the in-order scan that finds the first record with
  a given id (`FirstIndex`). It also defines the predicates the contracts use
  (`HasId`, `IsFirstMatch`, `PositiveIds`, `UniqueIds`) and a count of the
  records that carry an id.
- `handlers.dfy` (module `Handlers`): the get, create, update and delete
  handlers as functions. Each takes the store before the request and, where
  the handler has them, the parsed path id (or a parse failure) and the
  decoded body (or a binding failure). Each gives the response, as a status
  code and JSON body; create, update and delete also give the store after.
  The list handler has no function here; it is
  `Store.MedicineStore.GetMedicines`. The error texts are the service's
  own. Note that the get handler's "Medicine is not exist." ends with a full
  stop, while the update and delete handlers' text does not.
- `store.dfy` (module `Store`): the store as a class `MedicineStore`. Its one
  field `medicines: seq<Medicine>` is what the handlers read, append to,
  overwrite at an index and splice. Get, update and delete keep the
  source's early-return scan loop. Get is proved equal to its `Handlers`
  function of the current store. Create, update and delete are proved equal
  to theirs of the old store, and they keep the class invariant (all ids
  positive). List returns the store and changes nothing.
- `properties.dfy` (module `Properties`): lemmas that relate handlers to one
  another, and the id-reuse counterexample.

Ids are assigned as "current length + 1". They are therefore **not** unique:
on the initial store {1,2,3}, deleting id 1 and then creating a record
assigns id 3 a second time. The model proves this
(`Properties.IdReuseOnInitialStore`, and in general
`Properties.CreateAfterDeleteDuplicates`). So no uniqueness invariant is
claimed. Every "record with id k" means the first such record in store order,
which is what the source's scans do. A created id may already be held by an
existing record, and a get after a successful delete can still find a later
record with the same id. Uniqueness, "a get returns the created record" and
"a get after a delete is 404" hold only under the side conditions proved in
`CreateThenGet`, `CreateKeepsUniqueIdsIff` and `DeleteThenGetUnique`.

## Model

| member | source | states |
|---|---|---|
| `Medicines.FirstIndex` | main.go:83-88 | The in-order scan gives None exactly when no record carries the id. Otherwise it gives the position of the first record that does: that record's id matches and no earlier record's id does. |
| `Medicines.Count` | main.go:163-166 | The number of records carrying an id is at most the store length, and positive exactly when some record carries the id. |
| `Medicines.UniqueIdsCountOne` | main.go:163-166 | In a store with pairwise distinct ids, an id that is present occurs exactly once, so the first match the delete scan removes is the only record with that id. |
| `Handlers.GetMedicineById` | main.go:76-91 | An unparsable id gives 400 "Unavailable ID". An id no record carries gives 404 "Medicine is not exist.". Otherwise the result is 200 with the first record in store order that carries the id. |
| `Handlers.CreateMedicine` | main.go:101-111 | A malformed body gives 400 with the binder's message, and the store is unchanged. A decoded body is appended at the end, with its id overwritten to old length + 1. The store grows by exactly one, every earlier record is unchanged, and the stored record comes back with 201. |
| `Handlers.UpdateMedicine` | main.go:123-146 | An unparsable id gives 400 "Unavailable ID" whatever the body is, because the id is checked first. A malformed body gives 400 with the binder's message. An absent id gives 404 "Medicine is not exist". In each of these cases the store is unchanged. Otherwise only the first matching position is replaced, by the payload with its id forced to the path id. The length and all other positions are unchanged, and that record comes back with 200. |
| `Handlers.DeleteMedicine` | main.go:156-172 | An unparsable id gives 400, and an absent id gives 404; the store is unchanged in both cases. Otherwise the result is 204 (the handler passes an empty object, which is not sent for that status), and the length drops by one. The records before the first match stay in place, and those after it move up one place in the same order. |
| `Store.MedicineStore.constructor` | main.go:52-56 | The store starts as records 1 "ABC", 2 "EFG", 3 "XYZ", and the invariant holds. |
| `Store.MedicineStore.GetMedicines` | main.go:64-66 | Gives 200 with the whole store in its current order. It has no modifies clause, so it changes nothing. |
| `Store.MedicineStore.GetMedicineById` | main.go:76-91 | The early-return scan loop gives exactly `Handlers.GetMedicineById` of the current store. It changes nothing. |
| `Store.MedicineStore.CreateMedicine` | main.go:101-111 | The response and the new store are exactly `Handlers.CreateMedicine` of the old store, and all ids stay positive. |
| `Store.MedicineStore.UpdateMedicine` | main.go:123-146 | The scan loop, followed by the in-place overwrite and the id assignment, gives exactly `Handlers.UpdateMedicine` of the old store, and all ids stay positive. |
| `Store.MedicineStore.DeleteMedicine` | main.go:156-172 | The scan loop, followed by the splice, gives exactly `Handlers.DeleteMedicine` of the old store, and all ids stay positive. |
| `Properties.CreateThenGet` | main.go:108-110 | If old length + 1 is not already an id in the store, a get of the created id returns the created record. |
| `Properties.CreateKeepsUniqueIdsIff` | main.go:108-109 | On a store with unique ids, a create keeps them unique if and only if old length + 1 is not already an id. |
| `Properties.CreateAfterDeleteDuplicates` | main.go:108 | On a store with ids 1..n, deleting any id below n and then creating a record assigns id n. Id n is then held twice, and a get of n returns the old record, not the created one. |
| `Properties.IdReuseOnInitialStore` | main.go:52-56 | On the initial store, delete id 1 and then create: the new record gets id 3. Record "XYZ" still holds id 3, so the ids are no longer unique. |
| `Properties.UpdateKeepsIds` | main.go:136-141 | An update (whatever its outcome) leaves the length and the id at every position unchanged, so it keeps unique ids unique. |
| `Properties.UpdateThenGet` | main.go:136-141 | After an update of a present id, a get of that id returns exactly the record the update returned: the payload with the path id. |
| `Properties.DeleteRemovesOneOccurrence` | main.go:163-166 | A successful delete lowers the count of the deleted id by one and leaves the count of every other id unchanged. |
| `Properties.CountBehindFirstMatch` | main.go:163-164 | The records after the first match carry the id exactly one time fewer than the whole store does. |
| `Properties.GetSkipsPrefix` | main.go:83-88 | Records in front that do not carry the id do not change what a get of that id returns. |
| `Properties.DeleteThenGet` | main.go:163-166 | After a successful delete, a get of the same id returns what a get over the records behind the deleted one returns. It is 404 exactly when the id occurred once; otherwise it is the next record with that id. |
| `Properties.DeleteThenGetUnique` | main.go:163-166 | With unique ids, a get after a successful delete of that id is 404. |
| `Properties.DeleteUndoesCreate` | main.go:165 | Deleting the id that a create just assigned (when that id was new) returns 204 and restores the store exactly. |
| `Properties.HandlersKeepPositiveIds` | main.go:108 | Create, update and delete each keep every id in the store positive. |
| `Properties.NonPositiveIdNotFound` | main.go:83-90 | On a store with positive ids, get and delete of an id below 1, and update of such an id with a decoded body, give 404 and leave the store unchanged. (With a malformed body the update gives 400, because the body is checked before the scan.) |
| `Properties.DeleteTwoFromInitialStore` | main.go:156-172 | On the initial store, deleting id 2 gives 204. The store becomes records 1 and 3, and a get of id 2 is then 404. |
| `Properties.CreateOnInitialStore` | main.go:101-111 | On the initial three-record store, a create gives 201 with id 4, whatever id the payload carried. |

## Left out

- Routing, the `main` function, the server start, the swagger route and the documentation annotations are framework plumbing.
- JSON binding of the request body and JSON serialisation of responses are library calls. A handler receives the binding's outcome: a decoded `Medicine`, or a failure carrying the error text that the service echoes back. A response body is the value handed to the serialiser; that the framework sends no body with a 204 is not modelled.
- Integer parsing of the `:id` path segment is a library call. A handler receives a parsed `int` or a parse failure. Its range and sign rules are not modelled.
- The 64-bit width of Go's `int` is not modelled. Ids, stock and lengths are unbounded integers; a store long enough to overflow "length + 1" is not reachable in practice.
- `price` is a float64 in the service. Here it is a `real` that is only copied, never computed on.
- Slice aliasing is not modelled. The store is a value sequence, so the in-place shifting of the backing array that the delete's splice performs is not observable.
- Concurrent execution of handlers over the unsynchronised shared list is not modelled. The model is sequential.
- Request counting, metrics, logging and tracing do not appear in the modelled source file.
