/** The fixture store as values: one ordered list of records per model type,
    with the per-list counter used to mint ids. These functions are the
    specification the imperative adapter methods are proved against. */
module Store {
  import opened Values
  import Decimal

  datatype Result<+T, +E> = Ok(value: T) | Err(error: E)

  /** The error payload of a failed single-record fetch. */
  datatype Failure = Failure(statusCode: int, errorMessage: string)

  const NOT_FOUND_STATUS := 404
  const NOT_FOUND_MESSAGE := "The record was not found."

  /** One per-type fixture list and the `idCounter` property stored on it
      (0 stands for "not set yet"). */
  datatype TableState = TableState(records: seq<Record>, idCounter: nat)

  const EMPTY_TABLE := TableState([], 0)

  /** All fixture lists, keyed by the model type's identity. */
  type Fixtures = map<string, TableState>

  /** The list `fixturesForType` yields for a key: the stored one, or a fresh empty one. */
  function Lookup(fx: Fixtures, key: string): TableState
  {
    if key in fx then fx[key] else EMPTY_TABLE
  }

  /** The dictionary after `fixturesForType(key)`: an absent key gets an empty list. */
  function Touched(fx: Fixtures, key: string): (r: Fixtures)
    ensures r.Keys == fx.Keys + {key}
    ensures r[key] == Lookup(fx, key)
    ensures forall k :: k in fx ==> r[k] == fx[k]
  {
    if key in fx then fx else fx[key := EMPTY_TABLE]
  }

  /** Whatever was stored under `key` before, storing `v` there gives the same dictionary. */
  lemma OverwriteTouched(fx: Fixtures, key: string, before: TableState, v: TableState)
    ensures Touched(fx, key)[key := v] == fx[key := v]
    ensures fx[key := before][key := v] == fx[key := v]
  {
  }

  // ---------------------------------------------------------------------
  // Lookup by id

  /** Index of the first record whose id is `=== id`, as the `find` callbacks scan. */
  function FindIndex(rs: seq<Record>, id: Option<Value>): (k: Option<nat>)
    ensures k.Some? ==> k.value < |rs| && StrictEquals(IdOf(rs[k.value]), id)
    ensures k.Some? ==> forall j :: 0 <= j < k.value ==> !StrictEquals(IdOf(rs[j]), id)
    ensures k.None? ==> forall j :: 0 <= j < |rs| ==> !StrictEquals(IdOf(rs[j]), id)
  {
    if rs == [] then None
    else if StrictEquals(IdOf(rs[0]), id) then Some(0)
    else match FindIndex(rs[1..], id)
      case None => None
      case Some(k) => Some(k + 1)
  }

  /** A match at `i` with none before it is what FindIndex finds. */
  lemma FindIndexAt(rs: seq<Record>, id: Option<Value>, i: nat)
    requires i < |rs| && StrictEquals(IdOf(rs[i]), id)
    requires forall j :: 0 <= j < i ==> !StrictEquals(IdOf(rs[j]), id)
    ensures FindIndex(rs, id) == Some(i)
  {
  }

  /** `_didFindOne`: a copy of the first record whose id is `=== id`, or the
      404 failure with its fixed message. */
  function FindOne(rs: seq<Record>, id: Option<Value>): (r: Result<Record, Failure>)
    ensures r.Ok? <==> exists i :: 0 <= i < |rs| && StrictEquals(IdOf(rs[i]), id)
    ensures r.Ok? ==> exists i :: 0 <= i < |rs| && r.value == rs[i] && StrictEquals(IdOf(rs[i]), id)
                                  && forall j :: 0 <= j < i ==> !StrictEquals(IdOf(rs[j]), id)
    ensures r.Err? ==> r.error == Failure(NOT_FOUND_STATUS, NOT_FOUND_MESSAGE)
  {
    match FindIndex(rs, id)
    case Some(i) => Ok(rs[i])
    case None => Err(Failure(NOT_FOUND_STATUS, NOT_FOUND_MESSAGE))
  }

  /** Strict equality never matches two values that are not equal, and never
      matches arrays or objects, so at most one record of a list with unique
      ids can match. */
  predicate UniqueIds(rs: seq<Record>)
  {
    forall i, j :: 0 <= i < j < |rs| ==> !StrictEquals(IdOf(rs[i]), IdOf(rs[j]))
  }

  // ---------------------------------------------------------------------
  // Remove

  /** `_remove`: the list without its first record whose id is `=== id`. */
  function RemoveFirst(rs: seq<Record>, id: Option<Value>): seq<Record>
  {
    if rs == [] then []
    else if StrictEquals(IdOf(rs[0]), id) then rs[1..]
    else [rs[0]] + RemoveFirst(rs[1..], id)
  }

  /** Without a match, removal leaves the list as it is. */
  lemma {:induction false} RemoveFirstNoMatch(rs: seq<Record>, id: Option<Value>)
    requires forall j :: 0 <= j < |rs| ==> !StrictEquals(IdOf(rs[j]), id)
    ensures RemoveFirst(rs, id) == rs
  {
    if rs != [] {
      assert !StrictEquals(IdOf(rs[0]), id);
      var tail := rs[1..];
      assert forall j :: 0 <= j < |tail| ==> tail[j] == rs[j + 1];
      RemoveFirstNoMatch(tail, id);
      assert [rs[0]] + tail == rs;
    }
  }

  /** With the first match at `i`, removal drops exactly position `i`. */
  lemma {:induction false} RemoveFirstMatchAt(rs: seq<Record>, id: Option<Value>, i: nat)
    requires i < |rs| && StrictEquals(IdOf(rs[i]), id)
    requires forall j :: 0 <= j < i ==> !StrictEquals(IdOf(rs[j]), id)
    ensures RemoveFirst(rs, id) == rs[..i] + rs[i + 1..]
    decreases i
  {
    if i > 0 {
      assert !StrictEquals(IdOf(rs[0]), id);
      var tail := rs[1..];
      assert forall j :: 0 <= j < |tail| ==> tail[j] == rs[j + 1];
      RemoveFirstMatchAt(tail, id, i - 1);
      calc {
        RemoveFirst(rs, id);
        [rs[0]] + RemoveFirst(tail, id);
        [rs[0]] + (tail[..i - 1] + tail[i..]);
        { assert tail[..i - 1] == rs[1..i]; assert tail[i..] == rs[i + 1..]; }
        ([rs[0]] + rs[1..i]) + rs[i + 1..];
        { assert [rs[0]] + rs[1..i] == rs[..i]; }
        rs[..i] + rs[i + 1..];
      }
    }
  }

  /** Removal splices out exactly the first match; without a match the list
      is unchanged. Every other record keeps its relative order. */
  lemma RemoveFirstSplices(rs: seq<Record>, id: Option<Value>)
    ensures FindIndex(rs, id).None? ==> RemoveFirst(rs, id) == rs
    ensures FindIndex(rs, id).Some? ==>
              var i := FindIndex(rs, id).value;
              RemoveFirst(rs, id) == rs[..i] + rs[i + 1..]
  {
    match FindIndex(rs, id)
    case None => RemoveFirstNoMatch(rs, id);
    case Some(i) => RemoveFirstMatchAt(rs, id, i);
  }

  /** Where each remaining record sat before a removal that found a match at `i`. */
  lemma RemoveFirstAt(rs: seq<Record>, id: Option<Value>, j: nat)
    requires FindIndex(rs, id).Some? && j < |rs| - 1
    ensures |RemoveFirst(rs, id)| == |rs| - 1
    ensures RemoveFirst(rs, id)[j] == if j < FindIndex(rs, id).value then rs[j] else rs[j + 1]
  {
    RemoveFirstSplices(rs, id);
  }

  /** Anything in the list after a removal was in it before. */
  lemma RemoveFirstShrinks(rs: seq<Record>, id: Option<Value>)
    ensures |RemoveFirst(rs, id)| == |rs| - (if FindIndex(rs, id).Some? then 1 else 0)
    ensures forall x :: x in RemoveFirst(rs, id) ==> x in rs
  {
    RemoveFirstSplices(rs, id);
    if FindIndex(rs, id).Some? {
      var i := FindIndex(rs, id).value;
      assert rs == rs[..i] + [rs[i]] + rs[i + 1..];
    }
  }

  /** Removal keeps ids unique. */
  lemma RemoveFirstKeepsUnique(rs: seq<Record>, id: Option<Value>)
    requires UniqueIds(rs)
    ensures UniqueIds(RemoveFirst(rs, id))
  {
    RemoveFirstSplices(rs, id);
    if FindIndex(rs, id).Some? {
      var r := RemoveFirst(rs, id);
      forall a, b | 0 <= a < b < |r|
        ensures !StrictEquals(IdOf(r[a]), IdOf(r[b]))
      {
        RemoveFirstAt(rs, id, a);
        RemoveFirstAt(rs, id, b);
      }
    }
  }

  /** With unique ids, nothing is left that a fetch of the removed id could
      find: fetching it yields the 404 failure. */
  lemma RemoveThenNotFound(rs: seq<Record>, id: Option<Value>)
    requires UniqueIds(rs)
    ensures UniqueIds(RemoveFirst(rs, id))
    ensures FindIndex(RemoveFirst(rs, id), id).None?
    ensures FindOne(RemoveFirst(rs, id), id) == Err(Failure(NOT_FOUND_STATUS, NOT_FOUND_MESSAGE))
  {
    RemoveFirstKeepsUnique(rs, id);
    RemoveFirstSplices(rs, id);
    var r := RemoveFirst(rs, id);
    if FindIndex(rs, id).Some? {
      var i := FindIndex(rs, id).value;
      forall j | 0 <= j < |r|
        ensures !StrictEquals(IdOf(r[j]), id)
      {
        RemoveFirstAt(rs, id, j);
        if j >= i {
          assert !StrictEquals(IdOf(rs[i]), IdOf(rs[j + 1]));
        }
      }
    }
    assert FindIndex(r, id).None?;
  }

  /** `_didDeleteRecords`: one removal per id, in order. */
  function RemoveAll(rs: seq<Record>, ids: seq<Option<Value>>): seq<Record>
  {
    if ids == [] then rs else RemoveFirst(RemoveAll(rs, ids[..|ids| - 1]), ids[|ids| - 1])
  }

  /** A record whose id is not `=== id` survives the removal. */
  lemma RemoveFirstKeeps(rs: seq<Record>, id: Option<Value>, x: Record)
    requires x in rs && !StrictEquals(IdOf(x), id)
    ensures x in RemoveFirst(rs, id)
  {
    RemoveFirstSplices(rs, id);
    var after := RemoveFirst(rs, id);
    if FindIndex(rs, id).Some? {
      var i := FindIndex(rs, id).value;
      var j :| 0 <= j < |rs| && rs[j] == x;
      if j < i {
        assert after[j] == x;
      } else {
        assert after[j - 1] == x;
      }
    }
  }

  /** An id that matches nothing still matches nothing after a removal. */
  lemma RemoveFirstStaysAbsent(rs: seq<Record>, id: Option<Value>, other: Option<Value>)
    requires FindIndex(rs, other).None?
    ensures FindIndex(RemoveFirst(rs, id), other).None?
  {
    RemoveFirstShrinks(rs, id);
    var after := RemoveFirst(rs, id);
    forall j | 0 <= j < |after|
      ensures !StrictEquals(IdOf(after[j]), other)
    {
      assert after[j] in rs;
      var i :| 0 <= i < |rs| && rs[i] == after[j];
    }
  }

  /** Deleting several ids from a list with unique ids leaves none of them
      findable, and keeps every record whose id matches none of them. */
  lemma {:induction false} RemoveAllDeletesExactly(rs: seq<Record>, ids: seq<Option<Value>>)
    requires UniqueIds(rs)
    ensures UniqueIds(RemoveAll(rs, ids))
    ensures forall k :: 0 <= k < |ids| ==> FindIndex(RemoveAll(rs, ids), ids[k]).None?
    ensures forall x :: x in rs && (forall k :: 0 <= k < |ids| ==> !StrictEquals(IdOf(x), ids[k]))
                        ==> x in RemoveAll(rs, ids)
    decreases |ids|
  {
    if ids != [] {
      var init := ids[..|ids| - 1];
      var last := ids[|ids| - 1];
      RemoveAllDeletesExactly(rs, init);
      var before := RemoveAll(rs, init);
      RemoveThenNotFound(before, last);
      var after := RemoveFirst(before, last);
      assert RemoveAll(rs, ids) == after;
      forall k | 0 <= k < |ids|
        ensures FindIndex(after, ids[k]).None?
      {
        if k < |ids| - 1 {
          assert ids[k] == init[k];
          RemoveFirstStaysAbsent(before, last, ids[k]);
        }
      }
      forall x | x in rs && (forall k :: 0 <= k < |ids| ==> !StrictEquals(IdOf(x), ids[k]))
        ensures x in after
      {
        assert forall k :: 0 <= k < |init| ==> init[k] == ids[k];
        RemoveFirstKeeps(before, last, x);
      }
    }
  }

  // ---------------------------------------------------------------------
  // Persist

  /** `$.extend({}, stored, update)`: the update's fields win, fields only in
      the stored record are kept. */
  function Merge(stored: Record, update: Record): (m: Record)
    ensures m.Keys == stored.Keys + update.Keys
    ensures forall k :: k in update ==> m[k] == update[k]
    ensures forall k :: k in stored && k !in update ==> m[k] == stored[k]
  {
    stored + update
  }

  /** `_persist` of an object with a truthy id, as its `find` callback runs:
      merge into the first record with the same id, or append the object. */
  function Upsert(rs: seq<Record>, obj: Record): seq<Record>
  {
    if rs == [] then [obj]
    else if StrictEquals(IdOf(rs[0]), IdOf(obj)) then [Merge(rs[0], obj)] + rs[1..]
    else [rs[0]] + Upsert(rs[1..], obj)
  }

  /** A match is merged in place (same length, no other slot changes);
      without a match the object is appended as it is. */
  lemma {:induction false} UpsertMergesOrAppends(rs: seq<Record>, obj: Record)
    ensures FindIndex(rs, IdOf(obj)).None? ==> Upsert(rs, obj) == rs + [obj]
    ensures FindIndex(rs, IdOf(obj)).Some? ==>
              var i := FindIndex(rs, IdOf(obj)).value;
              Upsert(rs, obj) == rs[i := Merge(rs[i], obj)]
  {
    if rs != [] && !StrictEquals(IdOf(rs[0]), IdOf(obj)) {
      UpsertMergesOrAppends(rs[1..], obj);
      if FindIndex(rs, IdOf(obj)).Some? {
        var i := FindIndex(rs, IdOf(obj)).value;
        assert [rs[0]] + rs[1..][i - 1 := Merge(rs[i], obj)] == rs[i := Merge(rs[i], obj)];
      } else {
        assert [rs[0]] + (rs[1..] + [obj]) == rs + [obj];
      }
    }
  }

  /** The candidate id `root + counter`. */
  function Candidate(root: string, c: nat): Value
  {
    Str(root + Decimal.NatToString(c))
  }

  /** `fixtures.findBy('id', id)` finds something. */
  predicate Used(rs: seq<Record>, v: Value)
  {
    FindIndex(rs, Some(v)).Some?
  }

  /** The ids present in a list. */
  function IdSet(rs: seq<Record>): set<Value>
  {
    if rs == [] then {}
    else (match IdOf(rs[0]) case Some(v) => {v} case None => {}) + IdSet(rs[1..])
  }

  lemma {:induction false} IdSetSize(rs: seq<Record>)
    ensures |IdSet(rs)| <= |rs|
  {
    if rs != [] {
      IdSetSize(rs[1..]);
    }
  }

  lemma {:induction false} IdSetHas(rs: seq<Record>, i: nat)
    requires i < |rs| && IdOf(rs[i]).Some?
    ensures IdOf(rs[i]).value in IdSet(rs)
  {
    if i > 0 {
      IdSetHas(rs[1..], i - 1);
    }
  }

  /** The candidates for counters `lo + 1` through `hi`. */
  function CandidateSet(root: string, lo: nat, hi: nat): set<Value>
    decreases hi
  {
    if hi <= lo then {} else CandidateSet(root, lo, hi - 1) + {Candidate(root, hi)}
  }

  lemma {:induction false} CandidateSetMembers(root: string, lo: nat, hi: nat, k: nat)
    ensures Candidate(root, k) in CandidateSet(root, lo, hi) <==> lo < k <= hi
    decreases hi
  {
    if lo < hi {
      CandidateSetMembers(root, lo, hi - 1, k);
      if Candidate(root, k) == Candidate(root, hi) {
        Decimal.PrefixedInjective(root, k, hi);
      }
    }
  }

  lemma {:induction false} CandidateSetSize(root: string, lo: nat, hi: nat)
    requires lo <= hi
    ensures |CandidateSet(root, lo, hi)| == hi - lo
    decreases hi
  {
    if lo < hi {
      CandidateSetSize(root, lo, hi - 1);
      CandidateSetMembers(root, lo, hi - 1, hi);
    }
  }

  /** Pigeonhole: a run of used candidates is no longer than the list, since
      distinct counters give distinct ids and each id needs its own record. */
  lemma UsedRunIsShort(rs: seq<Record>, root: string, lo: nat, hi: nat)
    requires lo <= hi
    ensures (forall k :: lo < k <= hi ==> Used(rs, Candidate(root, k))) ==> hi - lo <= |rs|
  {
    if forall k :: lo < k <= hi ==> Used(rs, Candidate(root, k)) {
      forall v | v in CandidateSet(root, lo, hi)
        ensures v in IdSet(rs)
      {
        var k := CandidateWitness(root, lo, hi, v);
        assert Used(rs, Candidate(root, k));
        var i := FindIndex(rs, Some(v)).value;
        assert IdOf(rs[i]) == Some(v);
        IdSetHas(rs, i);
      }
      assert CandidateSet(root, lo, hi) <= IdSet(rs);
      CandidateSetSize(root, lo, hi);
      IdSetSize(rs);
      SubsetSize(CandidateSet(root, lo, hi), IdSet(rs));
    }
  }

  lemma SubsetSize<T>(a: set<T>, b: set<T>)
    requires a <= b
    ensures |a| <= |b|
  {
    assert b == a + (b - a);
  }

  lemma {:induction false} CandidateWitness(root: string, lo: nat, hi: nat, v: Value) returns (k: nat)
    requires v in CandidateSet(root, lo, hi)
    ensures lo < k <= hi && v == Candidate(root, k)
    decreases hi
  {
    if v == Candidate(root, hi) {
      k := hi;
    } else {
      k := CandidateWitness(root, lo, hi - 1, v);
    }
  }

  /** The first counter from `k` on whose candidate is free, looking no further than `bound`. */
  function FirstFreeFrom(rs: seq<Record>, root: string, k: nat, bound: nat): (c: nat)
    requires k <= bound
    ensures k <= c <= bound
    ensures forall j :: k <= j < c ==> Used(rs, Candidate(root, j))
    ensures c < bound ==> !Used(rs, Candidate(root, c))
    decreases bound - k
  {
    if k == bound || !Used(rs, Candidate(root, k)) then k
    else FirstFreeFrom(rs, root, k + 1, bound)
  }

  /** The counter `_incrementIdInFixtures` settles on: the least counter above
      the current one whose candidate id no record uses. At most |rs| + 1
      candidates are tried. */
  function NextCounter(rs: seq<Record>, root: string, counter: nat): (c: nat)
    ensures counter < c <= counter + |rs| + 1
    ensures !Used(rs, Candidate(root, c))
    ensures forall k :: counter < k < c ==> Used(rs, Candidate(root, k))
  {
    var c := FirstFreeFrom(rs, root, counter + 1, counter + |rs| + 1);
    UsedRunIsShort(rs, root, counter, c);
    c
  }

  /** The least-free characterisation pins NextCounter down. */
  lemma NextCounterUnique(rs: seq<Record>, root: string, counter: nat, c: nat)
    requires counter < c && !Used(rs, Candidate(root, c))
    requires forall k :: counter < k < c ==> Used(rs, Candidate(root, k))
    ensures c == NextCounter(rs, root, counter)
  {
    var n := NextCounter(rs, root, counter);
    assert !(n < c) && !(c < n);
  }

  /** `_persist(type, obj)`: the new list state and the object as the caller
      sees it afterwards (with the id written into it when it had none). */
  function Persisted(st: TableState, root: string, obj: Record): (r: (TableState, Record))
    ensures Truthy(IdOf(r.1))
    ensures r.1.Keys == obj.Keys + {"id"}
    ensures forall f :: f in obj && f != "id" ==> r.1[f] == obj[f]
    ensures Truthy(IdOf(obj)) ==> r.1 == obj
  {
    if Truthy(IdOf(obj)) then
      (TableState(Upsert(st.records, obj), st.idCounter), obj)
    else
      var c := NextCounter(st.records, root, st.idCounter);
      var saved := obj["id" := Candidate(root, c)];
      (TableState(st.records + [saved], c), saved)
  }

  /** Persisting with a truthy id that matches keeps the length and merges in
      place; any other persist appends exactly one record. */
  lemma PersistedLength(st: TableState, root: string, obj: Record)
    ensures var next := Persisted(st, root, obj).0;
            if Truthy(IdOf(obj)) && FindIndex(st.records, IdOf(obj)).Some?
            then var i := FindIndex(st.records, IdOf(obj)).value;
                 next.records == st.records[i := Merge(st.records[i], obj)]
            else |next.records| == |st.records| + 1
                 && next.records[..|st.records|] == st.records
                 && next.records[|st.records|] == Persisted(st, root, obj).1
  {
    UpsertMergesOrAppends(st.records, obj);
    var next := Persisted(st, root, obj).0;
    if !(Truthy(IdOf(obj)) && FindIndex(st.records, IdOf(obj)).Some?) {
      assert next.records[..|st.records|] == st.records;
    }
  }

  /** An object without a truthy id gets `root + counter` for a counter
      strictly above the stored one, and that id was used by no record. */
  lemma PersistedMintsFreshId(st: TableState, root: string, obj: Record)
    requires !Truthy(IdOf(obj))
    ensures var (next, saved) := Persisted(st, root, obj);
            st.idCounter < next.idCounter <= st.idCounter + |st.records| + 1
            && IdOf(saved) == Some(Candidate(root, next.idCounter))
            && forall j :: 0 <= j < |st.records| ==> IdOf(st.records[j]) != IdOf(saved)
  {
    var c := NextCounter(st.records, root, st.idCounter);
    forall j | 0 <= j < |st.records|
      ensures IdOf(st.records[j]) != Some(Candidate(root, c))
    {
      assert !StrictEquals(IdOf(st.records[j]), Some(Candidate(root, c)));
    }
  }

  /** Persist keeps ids unique: the invariant of every fixture list. */
  lemma PersistedKeepsUnique(st: TableState, root: string, obj: Record)
    requires UniqueIds(st.records)
    ensures UniqueIds(Persisted(st, root, obj).0.records)
  {
    PersistedLength(st, root, obj);
    var rs := st.records;
    var next := Persisted(st, root, obj).0.records;
    if Truthy(IdOf(obj)) && FindIndex(rs, IdOf(obj)).Some? {
      var i := FindIndex(rs, IdOf(obj)).value;
      assert IdOf(next[i]) == IdOf(rs[i]);
      assert forall j :: 0 <= j < |next| ==> IdOf(next[j]) == IdOf(rs[j]);
    } else {
      var saved := Persisted(st, root, obj).1;
      assert forall j :: 0 <= j < |rs| ==> !StrictEquals(IdOf(rs[j]), IdOf(saved));
      assert forall j :: 0 <= j < |rs| ==> next[j] == rs[j];
    }
  }

  /** Fetching the id of what was just persisted finds a record that carries
      every field of the persisted object. */
  lemma PersistThenFindOne(st: TableState, root: string, obj: Record)
    requires Truthy(IdOf(obj)) ==> Comparable(IdOf(obj).value)
    ensures var (next, saved) := Persisted(st, root, obj);
            var found := FindOne(next.records, IdOf(saved));
            found.Ok? && forall f :: f in saved ==> f in found.value && found.value[f] == saved[f]
  {
    PersistedLength(st, root, obj);
    var rs := st.records;
    var (next, saved) := Persisted(st, root, obj);
    if Truthy(IdOf(obj)) && FindIndex(rs, IdOf(obj)).Some? {
      var i := FindIndex(rs, IdOf(obj)).value;
      FindIndexAt(next.records, IdOf(saved), i);
    } else {
      FindIndexAt(next.records, IdOf(saved), |rs|);
    }
  }

  /** `_didCommitTransactionBulk` and the embedded-child loop: one persist per
      object, in order; the objects as persisted come back in the same order. */
  function PersistAll(st: TableState, root: string, objs: seq<Record>): (r: (TableState, seq<Record>))
    ensures |r.1| == |objs|
  {
    if objs == [] then (st, [])
    else
      var (mid, savedInit) := PersistAll(st, root, objs[..|objs| - 1]);
      var (next, saved) := Persisted(mid, root, objs[|objs| - 1]);
      (next, savedInit + [saved])
  }

  /** Each object comes back with a truthy id and all its other fields as given. */
  lemma {:induction false} PersistAllSaved(st: TableState, root: string, objs: seq<Record>)
    ensures forall i :: 0 <= i < |objs| ==>
              var saved := PersistAll(st, root, objs).1[i];
              Truthy(IdOf(saved)) && forall f :: f in objs[i] && f != "id" ==> f in saved && saved[f] == objs[i][f]
    decreases |objs|
  {
    if objs != [] {
      PersistAllSaved(st, root, objs[..|objs| - 1]);
    }
  }

  /** Bulk persist keeps ids unique; objects that all lack a truthy id grow
      the list by exactly their number. */
  lemma {:induction false} PersistAllKeepsUnique(st: TableState, root: string, objs: seq<Record>)
    requires UniqueIds(st.records)
    ensures UniqueIds(PersistAll(st, root, objs).0.records)
    ensures (forall i :: 0 <= i < |objs| ==> !Truthy(IdOf(objs[i])))
            ==> |PersistAll(st, root, objs).0.records| == |st.records| + |objs|
    decreases |objs|
  {
    if objs != [] {
      var init := objs[..|objs| - 1];
      PersistAllKeepsUnique(st, root, init);
      var mid := PersistAll(st, root, init).0;
      PersistedKeepsUnique(mid, root, objs[|objs| - 1]);
      PersistedLength(mid, root, objs[|objs| - 1]);
    }
  }

  // ---------------------------------------------------------------------
  // Embedded children

  /** `childData[belongsToKey + 'Id'] = data.id` for every child. */
  function Stamp(children: seq<Record>, belongsToKey: string, parentId: Value): seq<Record>
  {
    seq(|children|, i requires 0 <= i < |children| => children[i][belongsToKey + "Id" := parentId])
  }

  /** Every persisted child points at its parent and has a truthy id. */
  lemma EmbeddedChildrenPointAtParent(st: TableState, root: string, children: seq<Record>,
                                      belongsToKey: string, parentId: Value)
    ensures var saved := PersistAll(st, root, Stamp(children, belongsToKey, parentId)).1;
            |saved| == |children|
            && forall i :: 0 <= i < |saved| ==>
                 Truthy(IdOf(saved[i])) && Get(saved[i], belongsToKey + "Id") == Some(parentId)
  {
    var stamped := Stamp(children, belongsToKey, parentId);
    PersistAllSaved(st, root, stamped);
    var key := belongsToKey + "Id";
    assert key[|key| - 2] == 'I';
    assert key != "id";
    forall i | 0 <= i < |stamped| ensures key in stamped[i] && stamped[i][key] == parentId {
    }
  }

  /** The whole store keeps unique ids in every list. */
  predicate AllUnique(fx: Fixtures)
  {
    forall k :: k in fx ==> UniqueIds(fx[k].records)
  }
}
