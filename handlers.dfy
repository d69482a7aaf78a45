/**
 * What the get-by-id, create, update and delete handlers of the pharmacy
 * service do, as functions of the store before the request and of the
 * already-decoded request: the response (status code and JSON body) and,
 * for the three that may change it, the store after. The list handler only
 * returns the store; it is `Store.MedicineStore.GetMedicines`.
 *
 * Parsing the `:id` path segment and binding the JSON body are library calls
 * and are not modelled: a handler receives their outcome, a `PathId` and a
 * `Payload`.
 */
module Handlers {
  import opened Medicines

  /** The `:id` path segment, after integer parsing. */
  datatype PathId = Id(value: int) | Unparsable

  /** The request body, after JSON binding; a failure carries the binder's
      error text, which the service echoes back. */
  datatype Payload = Decoded(medicine: Medicine) | Malformed(reason: string)

  /** The JSON value a handler hands to the serialiser. For the 204 of a
      delete this is an empty object, but the framework writes no body for
      that status, so the client receives nothing. */
  datatype Body =
    | Record(medicine: Medicine)
    | Records(medicines: seq<Medicine>)
    | Error(message: string)
    | EmptyObject

  datatype Response = Response(status: int, body: Body)

  /** The response of a handler that may change the store, and the store it
      leaves behind. */
  datatype Outcome = Outcome(response: Response, medicines: seq<Medicine>)

  const STATUS_OK := 200
  const STATUS_CREATED := 201
  const STATUS_NO_CONTENT := 204
  const STATUS_BAD_REQUEST := 400
  const STATUS_NOT_FOUND := 404

  const UNAVAILABLE_ID := "Unavailable ID"
  /** The get handler's not-found text ends with a full stop ... */
  const NOT_EXIST_ON_GET := "Medicine is not exist."
  /** ... while the update and delete handlers' text does not. */
  const NOT_EXIST := "Medicine is not exist"

  /** GET /medicines/:id */
  function GetMedicineById(s: seq<Medicine>, pid: PathId): (r: Response)
    ensures pid.Unparsable? ==> r == Response(STATUS_BAD_REQUEST, Error(UNAVAILABLE_ID))
    ensures pid.Id? && !HasId(s, pid.value) ==>
              r == Response(STATUS_NOT_FOUND, Error(NOT_EXIST_ON_GET))
    ensures pid.Id? ==> forall i :: IsFirstMatch(s, pid.value, i) ==>
              r == Response(STATUS_OK, Record(s[i]))
  {
    match pid
    case Unparsable => Response(STATUS_BAD_REQUEST, Error(UNAVAILABLE_ID))
    case Id(id) =>
      match FirstIndex(s, id)
      case None => Response(STATUS_NOT_FOUND, Error(NOT_EXIST_ON_GET))
      case Some(i) =>
        assert forall k :: IsFirstMatch(s, id, k) ==> k == i by {
          forall k | IsFirstMatch(s, id, k) ensures k == i {
            FirstMatchIsFirstIndex(s, id, k);
          }
        }
        Response(STATUS_OK, Record(s[i]))
  }

  /** POST /medicines */
  function CreateMedicine(s: seq<Medicine>, payload: Payload): (o: Outcome)
    ensures payload.Malformed? ==>
              o == Outcome(Response(STATUS_BAD_REQUEST, Error(payload.reason)), s)
    ensures payload.Decoded? ==>
              && |o.medicines| == |s| + 1
              && o.medicines[..|s|] == s
              && o.medicines[|s|] == payload.medicine.(id := |s| + 1)
              && o.response == Response(STATUS_CREATED, Record(o.medicines[|s|]))
  {
    match payload
    case Malformed(reason) => Outcome(Response(STATUS_BAD_REQUEST, Error(reason)), s)
    case Decoded(m) =>
      var created := m.(id := |s| + 1);
      Outcome(Response(STATUS_CREATED, Record(created)), s + [created])
  }

  /** PUT /medicines/:id. The id is checked before the body. */
  function UpdateMedicine(s: seq<Medicine>, pid: PathId, payload: Payload): (o: Outcome)
    ensures pid.Unparsable? ==>
              o == Outcome(Response(STATUS_BAD_REQUEST, Error(UNAVAILABLE_ID)), s)
    ensures pid.Id? && payload.Malformed? ==>
              o == Outcome(Response(STATUS_BAD_REQUEST, Error(payload.reason)), s)
    ensures pid.Id? && payload.Decoded? && !HasId(s, pid.value) ==>
              o == Outcome(Response(STATUS_NOT_FOUND, Error(NOT_EXIST)), s)
    ensures pid.Id? && payload.Decoded? ==>
              forall i :: IsFirstMatch(s, pid.value, i) ==>
                && |o.medicines| == |s|
                && o.medicines[i] == payload.medicine.(id := pid.value)
                && (forall j :: 0 <= j < |s| && j != i ==> o.medicines[j] == s[j])
                && o.response == Response(STATUS_OK, Record(o.medicines[i]))
  {
    match pid
    case Unparsable => Outcome(Response(STATUS_BAD_REQUEST, Error(UNAVAILABLE_ID)), s)
    case Id(id) =>
      match payload
      case Malformed(reason) => Outcome(Response(STATUS_BAD_REQUEST, Error(reason)), s)
      case Decoded(m) =>
        match FirstIndex(s, id)
        case None => Outcome(Response(STATUS_NOT_FOUND, Error(NOT_EXIST)), s)
        case Some(i) =>
          assert forall k :: IsFirstMatch(s, id, k) ==> k == i by {
            forall k | IsFirstMatch(s, id, k) ensures k == i {
              FirstMatchIsFirstIndex(s, id, k);
            }
          }
          var updated := m.(id := id);
          Outcome(Response(STATUS_OK, Record(updated)), s[i := updated])
  }

  /** DELETE /medicines/:id */
  function DeleteMedicine(s: seq<Medicine>, pid: PathId): (o: Outcome)
    ensures pid.Unparsable? ==>
              o == Outcome(Response(STATUS_BAD_REQUEST, Error(UNAVAILABLE_ID)), s)
    ensures pid.Id? && !HasId(s, pid.value) ==>
              o == Outcome(Response(STATUS_NOT_FOUND, Error(NOT_EXIST)), s)
    ensures pid.Id? ==>
              forall i :: IsFirstMatch(s, pid.value, i) ==>
                && o.response == Response(STATUS_NO_CONTENT, EmptyObject)
                && |o.medicines| == |s| - 1
                && (forall j :: 0 <= j < i ==> o.medicines[j] == s[j])
                && (forall j :: i <= j < |o.medicines| ==> o.medicines[j] == s[j + 1])
  {
    match pid
    case Unparsable => Outcome(Response(STATUS_BAD_REQUEST, Error(UNAVAILABLE_ID)), s)
    case Id(id) =>
      match FirstIndex(s, id)
      case None => Outcome(Response(STATUS_NOT_FOUND, Error(NOT_EXIST)), s)
      case Some(i) =>
        assert forall k :: IsFirstMatch(s, id, k) ==> k == i by {
          forall k | IsFirstMatch(s, id, k) ensures k == i {
            FirstMatchIsFirstIndex(s, id, k);
          }
        }
        Outcome(Response(STATUS_NO_CONTENT, EmptyObject), s[..i] + s[i + 1..])
  }
}
