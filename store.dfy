/**
 * The service's global store of medicines and its five handlers, as a class
 * whose one field is the ordered sequence the handlers read, append to,
 * overwrite and splice. Get, update and delete keep the early-return scan
 * loop. Get is proved equal to its `Handlers` function of the current store;
 * create, update and delete are proved equal to theirs of the old store and
 * keep the class invariant. List returns the store and changes nothing.
 */
module Store {
  import opened Medicines
  import H = Handlers

  class MedicineStore {
    var medicines: seq<Medicine>

    /** The invariant every handler keeps: no record carries an id below 1.
        (Uniqueness of ids is NOT kept; see Properties.CreateAfterDeleteDuplicates.) */
    ghost predicate Valid()
      reads this
    {
      PositiveIds(medicines)
    }

    constructor ()
      ensures Valid()
      ensures medicines == INITIAL_MEDICINES
    {
      medicines := INITIAL_MEDICINES;
    }

    /** GET /medicines: the whole store, in order. */
    method GetMedicines() returns (r: H.Response)
      ensures r.status == H.STATUS_OK
      ensures r.body == H.Records(medicines)
    {
      r := H.Response(H.STATUS_OK, H.Records(medicines));
    }

    /** GET /medicines/:id: scan in order, stop at the first match. */
    method GetMedicineById(pid: H.PathId) returns (r: H.Response)
      ensures r == H.GetMedicineById(medicines, pid)
    {
      if pid.Unparsable? {
        return H.Response(H.STATUS_BAD_REQUEST, H.Error(H.UNAVAILABLE_ID));
      }
      var id := pid.value;
      var i := 0;
      while i < |medicines|
        invariant 0 <= i <= |medicines|
        invariant forall j :: 0 <= j < i ==> medicines[j].id != id
      {
        if medicines[i].id == id {
          return H.Response(H.STATUS_OK, H.Record(medicines[i]));
        }
        i := i + 1;
      }
      return H.Response(H.STATUS_NOT_FOUND, H.Error(H.NOT_EXIST_ON_GET));
    }

    /** POST /medicines: the new record's id is the old length plus one,
        whatever id the payload carried, and it goes at the end. */
    method CreateMedicine(payload: H.Payload) returns (r: H.Response)
      requires Valid()
      modifies this
      ensures Valid()
      ensures H.Outcome(r, medicines) == H.CreateMedicine(old(medicines), payload)
    {
      match payload
      case Malformed(reason) =>
        r := H.Response(H.STATUS_BAD_REQUEST, H.Error(reason));
      case Decoded(m) =>
        var created := m.(id := |medicines| + 1);
        medicines := medicines + [created];
        r := H.Response(H.STATUS_CREATED, H.Record(created));
    }

    /** PUT /medicines/:id: overwrite the first match in place, then force
        its id back to the path id. */
    method UpdateMedicine(pid: H.PathId, payload: H.Payload) returns (r: H.Response)
      requires Valid()
      modifies this
      ensures Valid()
      ensures H.Outcome(r, medicines) == H.UpdateMedicine(old(medicines), pid, payload)
    {
      if pid.Unparsable? {
        return H.Response(H.STATUS_BAD_REQUEST, H.Error(H.UNAVAILABLE_ID));
      }
      var id := pid.value;
      if payload.Malformed? {
        return H.Response(H.STATUS_BAD_REQUEST, H.Error(payload.reason));
      }
      var i := 0;
      while i < |medicines|
        invariant 0 <= i <= |medicines|
        invariant forall j :: 0 <= j < i ==> medicines[j].id != id
        invariant medicines == old(medicines)
      {
        if medicines[i].id == id {
          assert IsFirstMatch(medicines, id, i);
          medicines := medicines[i := payload.medicine];
          medicines := medicines[i := medicines[i].(id := id)];
          return H.Response(H.STATUS_OK, H.Record(medicines[i]));
        }
        i := i + 1;
      }
      return H.Response(H.STATUS_NOT_FOUND, H.Error(H.NOT_EXIST));
    }

    /** DELETE /medicines/:id: splice out the first match; the records after
        it move up one place. */
    method DeleteMedicine(pid: H.PathId) returns (r: H.Response)
      requires Valid()
      modifies this
      ensures Valid()
      ensures H.Outcome(r, medicines) == H.DeleteMedicine(old(medicines), pid)
    {
      if pid.Unparsable? {
        return H.Response(H.STATUS_BAD_REQUEST, H.Error(H.UNAVAILABLE_ID));
      }
      var id := pid.value;
      var i := 0;
      while i < |medicines|
        invariant 0 <= i <= |medicines|
        invariant forall j :: 0 <= j < i ==> medicines[j].id != id
        invariant medicines == old(medicines)
      {
        if medicines[i].id == id {
          assert IsFirstMatch(medicines, id, i);
          medicines := medicines[..i] + medicines[i + 1..];
          return H.Response(H.STATUS_NO_CONTENT, H.EmptyObject);
        }
        i := i + 1;
      }
      return H.Response(H.STATUS_NOT_FOUND, H.Error(H.NOT_EXIST));
    }
  }
}
