/**
 * The in-memory student table behind `/api/students`: a list of records and
 * the next id to hand out, with the three handlers that read and change them.
 */
module Students {
  import opened Wrappers
  import opened Seqs
  import opened Strings
  import opened Numbers

  /** A JSON value as the body parser delivers it (numbers restricted to integers). */
  datatype Value =
    | Null
    | Bool(b: bool)
    | Num(n: int)
    | Str(s: string)
    | Arr(items: seq<Value>)
    | Obj(fields: map<string, Value>)

  /** A student: a JSON object, with `id`, `nomComplet` and `dateAjout` among its fields. */
  type Record = map<string, Value>

  /** What a handler throws; Express answers it with status 500. */
  datatype Fault = TypeError

  /** The record the table starts with. */
  const Seed: Record := map["id" := Num(1), "nomComplet" := Str("Test User"), "dateAjout" := Str("20/01/2026")]

  /** The first id handed out by an insert. */
  const FirstFreeId: int := 2

  predicate HasNumId(r: Record)
  {
    "id" in r && r["id"].Num?
  }

  function IdOf(r: Record): int
    requires HasNumId(r)
  {
    r["id"].n
  }

  /**
   * The table invariant: `nextId` never falls below its initial value, every
   * record carries a numeric id between 1 and `nextId - 1`, and ids increase
   * strictly along the table.
   */
  predicate StoreInv(students: seq<Record>, nextId: int)
  {
    FirstFreeId <= nextId &&
    (forall i :: 0 <= i < |students| ==> HasNumId(students[i]) && 1 <= IdOf(students[i]) < nextId) &&
    (forall i, j :: 0 <= i < j < |students| ==> IdOf(students[i]) < IdOf(students[j]))
  }

  /** Under the invariant no two records share an id. */
  lemma IdsDistinct(students: seq<Record>, nextId: int, i: nat, j: nat)
    requires StoreInv(students, nextId)
    requires i < |students| && j < |students| && i != j
    ensures IdOf(students[i]) != IdOf(students[j])
  {
    if i > j {
      assert IdOf(students[j]) < IdOf(students[i]);
    }
  }

  // ---------------------------------------------------------------- insert

  /** The submitted object with `id` and `dateAjout` set by the server (POST handler). */
  function Stamp(body: Record, id: int, date: string): (saved: Record)
    ensures saved.Keys == body.Keys + {"id", "dateAjout"}
    ensures saved["id"] == Num(id) && saved["dateAjout"] == Str(date)
    ensures forall k :: k in body && k != "id" && k != "dateAjout" ==> saved[k] == body[k]
  {
    body["id" := Num(id)]["dateAjout" := Str(date)]
  }

  /** Appending a record stamped with `nextId` and moving `nextId` on keeps the invariant. */
  lemma InsertPreservesInv(students: seq<Record>, nextId: int, body: Record, date: string)
    requires StoreInv(students, nextId)
    ensures StoreInv(students + [Stamp(body, nextId, date)], nextId + 1)
  {
    var after := students + [Stamp(body, nextId, date)];
    forall i | 0 <= i < |after| ensures HasNumId(after[i]) && 1 <= IdOf(after[i]) < nextId + 1 {
      if i < |students| {
        assert after[i] == students[i];
      } else {
        assert after[i] == Stamp(body, nextId, date);
        assert IdOf(after[i]) == nextId;
      }
    }
  }

  // ---------------------------------------------------------------- delete

  /**
   * The DELETE handler's filter test `s.id !== id`. Strict inequality: `NaN`
   * (None) differs from every id, and a missing or non-numeric id differs
   * from every number.
   */
  predicate Differs(r: Record, id: Option<int>): (b: bool)
    ensures id.None? ==> b
    ensures !HasNumId(r) ==> b
    ensures id.Some? && HasNumId(r) ==> (b <==> IdOf(r) != id.value)
  {
    !(id.Some? && "id" in r && r["id"] == Num(id.value))
  }

  /** `Differs` as a filter callback. */
  function Keeper(id: Option<int>): Record -> bool
  {
    x => Differs(x, id)
  }

  /** The table after deleting `id`: the records whose id differs from it, in order. */
  function DeleteRecords(students: seq<Record>, id: Option<int>): (r: seq<Record>)
    ensures forall i :: 0 <= i < |r| ==> r[i] in students && Differs(r[i], id)
    ensures forall i :: 0 <= i < |students| && Differs(students[i], id) ==> students[i] in r
  {
    FilterMembers(Keeper(id), students);
    Filter(Keeper(id), students)
  }

  /**
   * Delete keeps exactly the records whose id differs, each as often as in the
   * table and in the table's order.
   */
  lemma DeleteKeepsExactly(students: seq<Record>, id: Option<int>, x: Record)
    ensures IsSubsequence(DeleteRecords(students, id), students)
    ensures multiset(DeleteRecords(students, id))[x] == if Differs(x, id) then multiset(students)[x] else 0
  {
    FilterIsSubsequence(Keeper(id), students);
    FilterMultiplicity(Keeper(id), students, x);
  }

  /** Deleting an id no record carries, or `NaN`, leaves the table as it is. */
  lemma DeleteAbsent(students: seq<Record>, id: Option<int>)
    requires forall i :: 0 <= i < |students| ==> Differs(students[i], id)
    ensures DeleteRecords(students, id) == students
  {
    FilterAllKept(Keeper(id), students);
  }

  /** Deleting the same id twice is deleting it once. */
  lemma DeleteIdempotent(students: seq<Record>, id: Option<int>)
    ensures DeleteRecords(DeleteRecords(students, id), id) == DeleteRecords(students, id)
  {
    FilterIdempotent(Keeper(id), students);
  }

  lemma StoreInvTail(students: seq<Record>, nextId: int)
    requires StoreInv(students, nextId) && students != []
    ensures StoreInv(students[1..], nextId)
  {
    var tail := students[1..];
    forall i, j | 0 <= i < j < |tail| ensures IdOf(tail[i]) < IdOf(tail[j]) {
      assert tail[i] == students[i + 1] && tail[j] == students[j + 1];
    }
  }

  lemma StoreInvCons(x: Record, rest: seq<Record>, nextId: int)
    requires StoreInv(rest, nextId)
    requires HasNumId(x) && 1 <= IdOf(x) < nextId
    requires forall k :: 0 <= k < |rest| ==> IdOf(x) < IdOf(rest[k])
    ensures StoreInv([x] + rest, nextId)
  {
    var s := [x] + rest;
    forall i | 0 < i < |s| ensures s[i] == rest[i - 1] { }
  }

  /** Deleting keeps the invariant, with the same `nextId`. */
  lemma {:induction false} DeletePreservesInv(students: seq<Record>, nextId: int, id: Option<int>)
    requires StoreInv(students, nextId)
    ensures StoreInv(DeleteRecords(students, id), nextId)
    decreases |students|
  {
    if students != [] {
      var tail := students[1..];
      StoreInvTail(students, nextId);
      DeletePreservesInv(tail, nextId, id);
      var rest := DeleteRecords(tail, id);
      forall k | 0 <= k < |rest| ensures IdOf(students[0]) < IdOf(rest[k]) {
        assert rest[k] in tail;
        var m :| 0 <= m < |tail| && tail[m] == rest[k];
        assert tail[m] == students[m + 1];
      }
      if Differs(students[0], id) {
        StoreInvCons(students[0], rest, nextId);
        assert DeleteRecords(students, id) == [students[0]] + rest;
      } else {
        assert DeleteRecords(students, id) == rest;
      }
    }
  }

  /** Under the invariant, deleting the id of the record at `i` removes that record and no other. */
  lemma DeleteUnique(students: seq<Record>, nextId: int, i: nat)
    requires StoreInv(students, nextId) && i < |students|
    ensures DeleteRecords(students, Some(IdOf(students[i]))) == students[..i] + students[i + 1..]
  {
    var id := Some(IdOf(students[i]));
    forall j | 0 <= j < |students| && j != i ensures Differs(students[j], id) {
      IdsDistinct(students, nextId, i, j);
    }
    RemoveOnly(Keeper(id), students, i);
  }

  // ---------------------------------------------------------------- search

  predicate HasStringName(r: Record)
  {
    "nomComplet" in r && r["nomComplet"].Str?
  }

  /** The search filter: the lowercased `nomComplet` contains the lowercased query. */
  predicate NameMatches(r: Record, query: string)
  {
    HasStringName(r) && Includes(Lower(r["nomComplet"].s), query)
  }

  /** `NameMatches` as a filter callback. */
  function Matcher(query: string): Record -> bool
  {
    x => NameMatches(x, query)
  }

  /**
   * The GET handler. A missing or empty `q` returns the whole table; otherwise
   * every record's `nomComplet` is lowercased (which throws unless it is a
   * string) and the records whose name contains the lowercased query are returned.
   */
  function SearchRecords(students: seq<Record>, q: Option<string>): (r: Result<seq<Record>, Fault>)
    ensures q.None? || q.value == [] ==> r == Ok(students)
    ensures q.Some? && q.value != [] ==>
      (r.Err? <==> exists i :: 0 <= i < |students| && !HasStringName(students[i]))
    ensures r.Ok? ==> forall i :: 0 <= i < |r.value| ==> r.value[i] in students
  {
    var query := if q.Some? && q.value != [] then Some(Lower(q.value)) else None;
    if query.Some? && query.value != [] then
      if forall i :: 0 <= i < |students| ==> HasStringName(students[i]) then
        FilterMembers(Matcher(query.value), students);
        Ok(Filter(Matcher(query.value), students))
      else
        Err(TypeError)
    else
      Ok(students)
  }

  /** With a non-empty query over string names, the search is the name filter. */
  lemma SearchIsFilter(students: seq<Record>, q: string)
    requires q != []
    requires forall i :: 0 <= i < |students| ==> HasStringName(students[i])
    ensures SearchRecords(students, Some(q)) == Ok(Filter(Matcher(Lower(q)), students))
  {
    assert Lower(q) != [] by { assert |Lower(q)| == |q|; }
  }

  /**
   * A search with a non-empty query over string names returns the records
   * whose lowercased name contains the lowercased query: each as often as in
   * the table, in the table's order, and no other record.
   */
  lemma SearchFindsExactly(students: seq<Record>, q: string, x: Record)
    requires q != []
    requires forall i :: 0 <= i < |students| ==> HasStringName(students[i])
    ensures SearchRecords(students, Some(q)).Ok?
    ensures IsSubsequence(SearchRecords(students, Some(q)).value, students)
    ensures multiset(SearchRecords(students, Some(q)).value)[x] ==
      if NameMatches(x, Lower(q)) then multiset(students)[x] else 0
  {
    SearchIsFilter(students, q);
    FilterIsSubsequence(Matcher(Lower(q)), students);
    FilterMultiplicity(Matcher(Lower(q)), students, x);
  }

  /** A record is found exactly when the lowercased query occurs somewhere in its lowercased name. */
  lemma SearchMatchIff(students: seq<Record>, q: string, i: nat)
    requires q != []
    requires forall j :: 0 <= j < |students| ==> HasStringName(students[j])
    requires i < |students|
    ensures SearchRecords(students, Some(q)).Ok?
    ensures students[i] in SearchRecords(students, Some(q)).value <==>
      exists k: nat :: OccursAt(Lower(students[i]["nomComplet"].s), Lower(q), k)
  {
    SearchIsFilter(students, q);
    FilterMembers(Matcher(Lower(q)), students);
    var r := SearchRecords(students, Some(q)).value;
    if students[i] in r {
      var m :| 0 <= m < |r| && r[m] == students[i];
      assert Matcher(Lower(q))(r[m]);
      assert NameMatches(students[i], Lower(q));
      assert Includes(Lower(students[i]["nomComplet"].s), Lower(q));
      assert exists k: nat :: OccursAt(Lower(students[i]["nomComplet"].s), Lower(q), k);
    } else {
      assert !Matcher(Lower(q))(students[i]);
      assert !NameMatches(students[i], Lower(q));
    }
  }

  /** The query's case does not matter: searching for `q` and for its lowercase gives the same answer. */
  lemma SearchCaseInsensitive(students: seq<Record>, q: string)
    ensures SearchRecords(students, Some(q)) == SearchRecords(students, Some(Lower(q)))
  {
    LowerIdempotent(q);
  }

  // ---------------------------------------------------------------- the table

  /** The module-level `students` array and `nextId` counter. */
  class Store {
    var students: seq<Record>
    var nextId: int
    /** Every id the table has handed out so far, including the seed's. */
    ghost var issued: set<int>

    ghost predicate Valid()
      reads this
    {
      StoreInv(students, nextId) &&
      (forall i :: 0 <= i < |students| ==> IdOf(students[i]) in issued) &&
      (forall x :: x in issued ==> 1 <= x < nextId)
    }

    constructor ()
      ensures Valid()
      ensures students == [Seed] && nextId == FirstFreeId && issued == {1}
    {
      students := [Seed];
      nextId := FirstFreeId;
      issued := {1};
    }

    /**
     * POST: stamp the body with `nextId` (then move it on) and the date, append it,
     * and answer with the stored record. The new id was never handed out before.
     */
    method Insert(body: Record, date: string) returns (saved: Record)
      requires Valid()
      modifies this
      ensures Valid()
      ensures saved == Stamp(body, old(nextId), date)
      ensures old(nextId) !in old(issued) && issued == old(issued) + {old(nextId)}
      ensures students == old(students) + [saved]
      ensures nextId == old(nextId) + 1
    {
      saved := Stamp(body, nextId, date);
      InsertPreservesInv(students, nextId, body, date);
      students := students + [saved];
      issued := issued + {nextId};
      nextId := nextId + 1;
    }

    /** GET: the search over the current table; it changes nothing. */
    function Search(q: Option<string>): (r: Result<seq<Record>, Fault>)
      reads this
      ensures q.None? || q.value == [] ==> r == Ok(students)
      ensures q.Some? && q.value != [] ==>
        (r.Err? <==> exists i :: 0 <= i < |students| && !HasStringName(students[i]))
      ensures r.Ok? ==> forall i :: 0 <= i < |r.value| ==> r.value[i] in students
    {
      SearchRecords(students, q)
    }

    /**
     * DELETE: parse the parameter with `parseInt` and keep the records whose id
     * differs from it. The answer is always a success; `nextId` is untouched.
     */
    method Delete(param: string) returns (success: bool)
      requires Valid()
      modifies this
      ensures Valid()
      ensures students == DeleteRecords(old(students), ParseInt(param))
      ensures nextId == old(nextId) && issued == old(issued)
      ensures success
    {
      var id := ParseInt(param);
      DeletePreservesInv(students, nextId, id);
      students := DeleteRecords(students, id);
      success := true;
    }
  }
}
