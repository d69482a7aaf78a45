/**
 * The medicine record of the pharmacy service and the queries every handler
 * performs on the ordered store of records: the search for the first record
 * carrying an id, and the number of records carrying it.
 *
 * Ids are NOT unique in general (a create after a delete can reuse the id of
 * a record still present), so "the record with id k" always means the FIRST
 * record, in store order, whose id is k.
 */
module Medicines {

  datatype Option<T> = None | Some(value: T)

  /** One medicine. The price is a float64 in the service; here it is only
      ever copied, never computed on, so a `real` stands in for it. */
  datatype Medicine = Medicine(
    id: int,
    name: string,
    manufacturer: string,
    price: real,
    stock: int)

  /** The store the service starts with. */
  const INITIAL_MEDICINES: seq<Medicine> := [
    Medicine(1, "ABC", "1234", 15.5, 100),
    Medicine(2, "EFG", "5678", 12.0, 50),
    Medicine(3, "XYZ", "9999", 5.8, 200)
  ]

  /** Some record of `s` carries `id`. */
  predicate HasId(s: seq<Medicine>, id: int) {
    exists i :: 0 <= i < |s| && s[i].id == id
  }

  /** `i` is the position of the first record of `s` whose id is `id`. */
  predicate IsFirstMatch(s: seq<Medicine>, id: int, i: int) {
    && 0 <= i < |s|
    && s[i].id == id
    && forall j :: 0 <= j < i ==> s[j].id != id
  }

  /** Every id in the store is positive. */
  predicate PositiveIds(s: seq<Medicine>) {
    forall i :: 0 <= i < |s| ==> s[i].id > 0
  }

  /** No two records of the store carry the same id. */
  predicate UniqueIds(s: seq<Medicine>) {
    forall i, j :: 0 <= i < j < |s| ==> s[i].id != s[j].id
  }

  /** The scan shared by every handler that takes an id: walk the store in
      order and stop at the first record whose id matches. */
  function FirstIndex(s: seq<Medicine>, id: int): (r: Option<nat>)
    ensures r.None? <==> !HasId(s, id)
    ensures r.Some? ==> IsFirstMatch(s, id, r.value)
  {
    if |s| == 0 then None
    else if s[0].id == id then Some(0)
    else
      match FirstIndex(s[1..], id)
      case None =>
        assert forall j :: 0 < j < |s| ==> s[j] == s[1..][j - 1];
        None
      case Some(k) =>
        assert forall j :: 0 < j <= k ==> s[j] == s[1..][j - 1];
        Some(k + 1)
  }

  /** The first match is unique: a store position that satisfies the "first
      match" description is the one the scan finds. */
  lemma FirstMatchIsFirstIndex(s: seq<Medicine>, id: int, i: int)
    requires IsFirstMatch(s, id, i)
    ensures FirstIndex(s, id) == Some(i)
  {
  }

  /** How many records of `s` carry `id`. */
  function Count(s: seq<Medicine>, id: int): (n: nat)
    ensures n <= |s|
    ensures n > 0 <==> HasId(s, id)
  {
    if |s| == 0 then 0
    else
      var rest := Count(s[1..], id);
      assert HasId(s[1..], id) ==> HasId(s, id) by {
        if HasId(s[1..], id) {
          var j :| 0 <= j < |s[1..]| && s[1..][j].id == id;
          assert s[j + 1].id == id;
        }
      }
      assert HasId(s, id) && s[0].id != id ==> HasId(s[1..], id) by {
        if HasId(s, id) && s[0].id != id {
          var j :| 0 <= j < |s| && s[j].id == id;
          assert s[1..][j - 1].id == id;
        }
      }
      (if s[0].id == id then 1 else 0) + rest
  }

  /** Counting distributes over concatenation. */
  lemma {:induction false} CountConcat(a: seq<Medicine>, b: seq<Medicine>, id: int)
    ensures Count(a + b, id) == Count(a, id) + Count(b, id)
  {
    if |a| == 0 {
      assert a + b == b;
    } else {
      assert (a + b)[1..] == a[1..] + b;
      CountConcat(a[1..], b, id);
    }
  }

  /** With unique ids, an id present in the store occurs exactly once. */
  lemma {:induction false} UniqueIdsCountOne(s: seq<Medicine>, id: int)
    requires UniqueIds(s)
    requires HasId(s, id)
    ensures Count(s, id) == 1
  {
    if s[0].id == id {
      assert !HasId(s[1..], id) by {
        forall j | 0 <= j < |s[1..]| ensures s[1..][j].id != id {
          assert s[1..][j] == s[j + 1];
        }
      }
    } else {
      var j :| 0 <= j < |s| && s[j].id == id;
      assert s[1..][j - 1].id == id;
      UniqueIdsCountOne(s[1..], id);
    }
  }
}
