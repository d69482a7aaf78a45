/**
 * Properties relating the handlers to one another: what a get observes after
 * a create, an update or a delete, when a delete undoes a create, which
 * invariants the handlers keep, and the id reuse that position-derived ids
 * allow.
 */
module Properties {
  import opened Medicines
  import opened Handlers

  /** Ids run 1, 2, ..., |s| in store order, as in the initial store and in
      any store built only by creates from the empty one. */
  predicate SequentialIds(s: seq<Medicine>) {
    forall k :: 0 <= k < |s| ==> s[k].id == k + 1
  }

  // ----- create -----

  /** A create whose assigned id is not already in the store can be read
      back: a get of that id returns the stored record. */
  lemma CreateThenGet(s: seq<Medicine>, m: Medicine)
    requires !HasId(s, |s| + 1)
    ensures GetMedicineById(CreateMedicine(s, Decoded(m)).medicines, Id(|s| + 1))
            == Response(STATUS_OK, Record(m.(id := |s| + 1)))
  {
  }

  /** A create keeps the ids unique exactly when the assigned id, the old
      length plus one, is not already in the store. */
  lemma CreateKeepsUniqueIdsIff(s: seq<Medicine>, m: Medicine)
    requires UniqueIds(s)
    ensures UniqueIds(CreateMedicine(s, Decoded(m)).medicines) <==> !HasId(s, |s| + 1)
  {
  }

  /** On a store whose ids are 1..n, deleting any record but the last and
      then creating one assigns an id still held by the old last record: the
      store then holds two records with that id, and a get of it returns the
      old record, not the new one. */
  lemma CreateAfterDeleteDuplicates(s: seq<Medicine>, d: int, m: Medicine)
    requires SequentialIds(s)
    requires 1 <= d < |s|
    ensures var afterDelete := DeleteMedicine(s, Id(d)).medicines;
            var afterCreate := CreateMedicine(afterDelete, Decoded(m));
            && afterCreate.response == Response(STATUS_CREATED, Record(m.(id := |s|)))
            && !UniqueIds(afterCreate.medicines)
            && GetMedicineById(afterCreate.medicines, Id(|s|))
               == Response(STATUS_OK, Record(s[|s| - 1]))
  {
    var n := |s|;
    assert IsFirstMatch(s, d, d - 1);
    var u := DeleteMedicine(s, Id(d)).medicines;
    assert |u| == n - 1;
    assert u[n - 2] == s[n - 1];
    var t := CreateMedicine(u, Decoded(m)).medicines;
    assert t[n - 2] == t[..n - 1][n - 2] == s[n - 1];
    assert t[n - 1].id == n;
    assert t[n - 2].id == t[n - 1].id;
    forall j | 0 <= j < n - 2 ensures t[j].id != n {
      assert t[j] == t[..n - 1][j] == u[j];
      assert u[j] == s[j] || u[j] == s[j + 1];
    }
    assert IsFirstMatch(t, n, n - 2);
  }

  /** The example above on the service's initial store: delete id 1, then
      create; the new record gets id 3, which record "XYZ" still holds. */
  lemma IdReuseOnInitialStore(m: Medicine)
    ensures var afterDelete := DeleteMedicine(INITIAL_MEDICINES, Id(1)).medicines;
            var afterCreate := CreateMedicine(afterDelete, Decoded(m));
            && afterCreate.response.body.medicine.id == 3
            && afterCreate.medicines[1] == INITIAL_MEDICINES[2]
            && afterCreate.medicines[2].id == 3
            && !UniqueIds(afterCreate.medicines)
  {
  }

  // ----- update -----

  /** An update never changes which id sits at which position, so it keeps
      every search result and the uniqueness of ids. */
  lemma UpdateKeepsIds(s: seq<Medicine>, pid: PathId, payload: Payload)
    ensures var t := UpdateMedicine(s, pid, payload).medicines;
            && |t| == |s|
            && (forall j :: 0 <= j < |s| ==> t[j].id == s[j].id)
            && (UniqueIds(s) ==> UniqueIds(t))
  {
  }

  /** After a successful update, a get of the same id returns exactly the
      record the update returned: the payload with the path id. */
  lemma UpdateThenGet(s: seq<Medicine>, id: int, m: Medicine)
    requires HasId(s, id)
    ensures var o := UpdateMedicine(s, Id(id), Decoded(m));
            && o.response == Response(STATUS_OK, Record(m.(id := id)))
            && GetMedicineById(o.medicines, Id(id)) == o.response
  {
  }

  // ----- delete -----

  /** A successful delete removes exactly one record carrying the id and no
      record carrying any other id. */
  lemma DeleteRemovesOneOccurrence(s: seq<Medicine>, id: int, x: int)
    requires HasId(s, id)
    ensures Count(DeleteMedicine(s, Id(id)).medicines, x)
            == Count(s, x) - (if x == id then 1 else 0)
  {
    var i := FirstIndex(s, id).value;
    assert IsFirstMatch(s, id, i);
    var t := DeleteMedicine(s, Id(id)).medicines;
    assert t == s[..i] + s[i + 1..];
    assert s == s[..i] + [s[i]] + s[i + 1..];
    CountConcat(s[..i], s[i + 1..], x);
    CountConcat(s[..i] + [s[i]], s[i + 1..], x);
    CountConcat(s[..i], [s[i]], x);
    assert Count([s[i]], x) == (if x == id then 1 else 0) by {
      assert [s[i]][1..] == [];
    }
  }

  /** A get is not affected by records in front that do not carry the id. */
  lemma GetSkipsPrefix(a: seq<Medicine>, b: seq<Medicine>, id: int)
    requires !HasId(a, id)
    ensures GetMedicineById(a + b, Id(id)) == GetMedicineById(b, Id(id))
  {
    if HasId(b, id) {
      var k := FirstIndex(b, id).value;
      forall j | 0 <= j < |a| + k ensures (a + b)[j].id != id {
        if j >= |a| { assert (a + b)[j] == b[j - |a|]; }
      }
      assert IsFirstMatch(a + b, id, |a| + k);
    } else {
      forall j | 0 <= j < |a + b| ensures (a + b)[j].id != id {
        if j >= |a| { assert (a + b)[j] == b[j - |a|]; }
      }
    }
  }

  /** The records behind the first match carry the id one time fewer than
      the whole store. */
  lemma CountBehindFirstMatch(s: seq<Medicine>, id: int, i: int)
    requires IsFirstMatch(s, id, i)
    ensures Count(s, id) == 1 + Count(s[i + 1..], id)
  {
    assert s == s[..i] + ([s[i]] + s[i + 1..]);
    CountConcat(s[..i], [s[i]] + s[i + 1..], id);
    CountConcat([s[i]], s[i + 1..], id);
    assert !HasId(s[..i], id);
    assert Count([s[i]], id) == 1 by {
      assert [s[i]][1..] == [];
    }
  }

  /** After a successful delete, a get of the same id sees what lay behind
      the deleted record: it fails with 404 exactly when the id occurred
      once, and otherwise returns the next record carrying it. */
  lemma DeleteThenGet(s: seq<Medicine>, id: int)
    requires HasId(s, id)
    ensures var r := GetMedicineById(DeleteMedicine(s, Id(id)).medicines, Id(id));
            && r == GetMedicineById(s[FirstIndex(s, id).value + 1..], Id(id))
            && (r.status == STATUS_NOT_FOUND <==> Count(s, id) == 1)
  {
    var i := FirstIndex(s, id).value;
    var tail := s[i + 1..];
    assert DeleteMedicine(s, Id(id)).medicines == s[..i] + tail;
    assert !HasId(s[..i], id);
    GetSkipsPrefix(s[..i], tail, id);
    CountBehindFirstMatch(s, id, i);
    if HasId(tail, id) {
      assert IsFirstMatch(tail, id, FirstIndex(tail, id).value);
    }
  }

  /** With unique ids, a delete makes the id unreadable. The argument: a
      present id then occurs exactly once (`UniqueIdsCountOne`), and a get
      after the delete is 404 exactly when the id occurred once
      (`DeleteThenGet`). Dafny also closes this goal without the two calls;
      they are kept to show the argument. */
  lemma DeleteThenGetUnique(s: seq<Medicine>, id: int)
    requires UniqueIds(s)
    requires HasId(s, id)
    ensures GetMedicineById(DeleteMedicine(s, Id(id)).medicines, Id(id))
            == Response(STATUS_NOT_FOUND, Error(NOT_EXIST_ON_GET))
  {
    DeleteThenGet(s, id);
    UniqueIdsCountOne(s, id);
  }

  /** A delete of the id a create just assigned undoes the create, provided
      that id was not already in the store. */
  lemma DeleteUndoesCreate(s: seq<Medicine>, m: Medicine)
    requires !HasId(s, |s| + 1)
    ensures DeleteMedicine(CreateMedicine(s, Decoded(m)).medicines, Id(|s| + 1))
            == Outcome(Response(STATUS_NO_CONTENT, EmptyObject), s)
  {
  }

  // ----- invariants -----

  /** Every handler keeps all ids positive. */
  lemma HandlersKeepPositiveIds(s: seq<Medicine>, pid: PathId, payload: Payload)
    requires PositiveIds(s)
    ensures PositiveIds(CreateMedicine(s, payload).medicines)
    ensures PositiveIds(UpdateMedicine(s, pid, payload).medicines)
    ensures PositiveIds(DeleteMedicine(s, pid).medicines)
  {
  }

  /** Hence an id below 1, which no create ever assigns, is never found. */
  lemma NonPositiveIdNotFound(s: seq<Medicine>, id: int, payload: Payload)
    requires PositiveIds(s)
    requires id <= 0
    ensures GetMedicineById(s, Id(id)) == Response(STATUS_NOT_FOUND, Error(NOT_EXIST_ON_GET))
    ensures payload.Decoded? ==>
              UpdateMedicine(s, Id(id), payload)
              == Outcome(Response(STATUS_NOT_FOUND, Error(NOT_EXIST)), s)
    ensures DeleteMedicine(s, Id(id)) == Outcome(Response(STATUS_NOT_FOUND, Error(NOT_EXIST)), s)
  {
  }

  // ----- scenarios on the initial store -----

  /** Delete id 2: 204; the store is records 1 and 3; a get of id 2 is 404. */
  lemma DeleteTwoFromInitialStore()
    ensures var o := DeleteMedicine(INITIAL_MEDICINES, Id(2));
            && o.response == Response(STATUS_NO_CONTENT, EmptyObject)
            && o.medicines == [INITIAL_MEDICINES[0], INITIAL_MEDICINES[2]]
            && GetMedicineById(o.medicines, Id(2))
               == Response(STATUS_NOT_FOUND, Error(NOT_EXIST_ON_GET))
  {
  }

  /** Create on the three-record initial store: 201 with id 4, whatever id
      the payload carried. */
  lemma CreateOnInitialStore(m: Medicine)
    ensures CreateMedicine(INITIAL_MEDICINES, Decoded(m)).response
            == Response(STATUS_CREATED, Record(m.(id := 4)))
  {
  }
}
