/** The fixture adapter object: a dictionary from model type to fixture list,
    each list an object that also carries its id counter. Every method here
    is the simulated half of an adapter operation (what runs once the delayed
    callback fires). */
module Adapter {
  import opened Values
  import opened Store
  import opened QueryEngine

  /** What the adapter needs of a host model type: its identity (the key of
      the fixture dictionary), its store root (the prefix of minted ids) and
      its declared attribute and belongs-to names. */
  datatype ModelType = ModelType(key: string, root: string, schema: Schema)

  /** One `embed` entry of a save: the has-many relationship's child type, its
      `belongsToKey`, and the serialized children. */
  datatype Embed = Embed(childType: ModelType, belongsToKey: string, children: seq<Record>)

  // ---------------------------------------------------------------------
  // Specification over the whole dictionary

  /** Persist each object into `t`'s list. An empty batch never calls
      `fixturesForType`, so it leaves the dictionary as it is. */
  function PersistIn(fx: Fixtures, t: ModelType, objs: seq<Record>): (r: (Fixtures, seq<Record>))
    ensures |r.1| == |objs|
  {
    if objs == [] then (fx, [])
    else
      var (st, saved) := PersistAll(Lookup(fx, t.key), t.root, objs);
      (fx[t.key := st], saved)
  }

  /** Remove each id from `t`'s list; an empty batch changes nothing. */
  function RemoveIn(fx: Fixtures, t: ModelType, ids: seq<Option<Value>>): Fixtures
  {
    if ids == [] then fx
    else
      var st := Lookup(fx, t.key);
      fx[t.key := TableState(RemoveAll(st.records, ids), st.idCounter)]
  }

  /** The embedded-child loop of `saveRecord`: for each embed entry in order,
      stamp the parent id on each child and persist it into the child type's list. */
  function EmbedAll(fx: Fixtures, embeds: seq<Embed>, parentId: Value): (r: (Fixtures, seq<seq<Record>>))
    ensures |r.1| == |embeds|
  {
    if embeds == [] then (fx, [])
    else
      var (mid, done) := EmbedAll(fx, embeds[..|embeds| - 1], parentId);
      var e := embeds[|embeds| - 1];
      var (next, kids) := PersistIn(mid, e.childType, Stamp(e.children, e.belongsToKey, parentId));
      (next, done + [kids])
  }

  /** The simulated `saveRecord`: persist the root record, then its embedded children. */
  function SavedRecord(fx: Fixtures, t: ModelType, data: Record, embeds: seq<Embed>)
    : (r: (Fixtures, Record, seq<seq<Record>>))
    ensures Truthy(IdOf(r.1)) && |r.2| == |embeds|
  {
    var (st, saved) := Persisted(Lookup(fx, t.key), t.root, data);
    var (next, children) := EmbedAll(fx[t.key := st], embeds, IdOf(saved).value);
    (next, saved, children)
  }

  lemma LookupUnique(fx: Fixtures, key: string)
    requires AllUnique(fx)
    ensures UniqueIds(Lookup(fx, key).records)
  {
  }

  lemma PersistInKeepsUnique(fx: Fixtures, t: ModelType, objs: seq<Record>)
    requires AllUnique(fx)
    ensures AllUnique(PersistIn(fx, t, objs).0)
  {
    if objs != [] {
      PersistAllKeepsUnique(Lookup(fx, t.key), t.root, objs);
    }
  }

  /** Saving a record with embedded children keeps ids unique in every list,
      and every child comes back pointing at the saved parent's id. */
  lemma {:induction false} SavedRecordKeepsInvariants(fx: Fixtures, t: ModelType, data: Record, embeds: seq<Embed>)
    requires AllUnique(fx)
    ensures AllUnique(SavedRecord(fx, t, data, embeds).0)
    ensures var r := SavedRecord(fx, t, data, embeds);
            forall e, i :: 0 <= e < |embeds| && 0 <= i < |r.2[e]| ==>
              Truthy(IdOf(r.2[e][i]))
              && Get(r.2[e][i], embeds[e].belongsToKey + "Id") == IdOf(r.1)
  {
    var root := Persisted(Lookup(fx, t.key), t.root, data);
    PersistedKeepsUnique(Lookup(fx, t.key), t.root, data);
    var parentId := IdOf(root.1).value;
    EmbedAllKeepsUnique(fx[t.key := root.0], embeds, parentId);
    EmbedAllPointsAtParent(fx[t.key := root.0], embeds, parentId);
    var rest := EmbedAll(fx[t.key := root.0], embeds, parentId);
    var r := SavedRecord(fx, t, data, embeds);
    assert r == (rest.0, root.1, rest.1);
    assert IdOf(r.1) == Some(parentId);
    forall e, i | 0 <= e < |embeds| && 0 <= i < |r.2[e]|
      ensures Truthy(IdOf(r.2[e][i])) && Get(r.2[e][i], embeds[e].belongsToKey + "Id") == IdOf(r.1)
    {
      assert r.2[e][i] == rest.1[e][i];
    }
  }

  /** One more embed entry is one more batch persist into its child type's list. */
  lemma EmbedAllStep(fx: Fixtures, embeds: seq<Embed>, parentId: Value)
    requires embeds != []
    ensures var mid := EmbedAll(fx, embeds[..|embeds| - 1], parentId);
            var last := embeds[|embeds| - 1];
            var step := PersistIn(mid.0, last.childType, Stamp(last.children, last.belongsToKey, parentId));
            EmbedAll(fx, embeds, parentId) == (step.0, mid.1 + [step.1])
  {
  }

  /** Persisting embedded children keeps ids unique in every list. */
  lemma {:induction false} EmbedAllKeepsUnique(fx: Fixtures, embeds: seq<Embed>, parentId: Value)
    requires AllUnique(fx)
    ensures AllUnique(EmbedAll(fx, embeds, parentId).0)
    decreases |embeds|
  {
    if embeds != [] {
      var init := embeds[..|embeds| - 1];
      var last := embeds[|embeds| - 1];
      EmbedAllKeepsUnique(fx, init, parentId);
      EmbedAllStep(fx, embeds, parentId);
      PersistInKeepsUnique(EmbedAll(fx, init, parentId).0, last.childType,
                           Stamp(last.children, last.belongsToKey, parentId));
    }
  }

  /** Every persisted embedded child has a truthy id and points at the parent. */
  lemma {:induction false} EmbedAllPointsAtParent(fx: Fixtures, embeds: seq<Embed>, parentId: Value)
    ensures forall e, i :: 0 <= e < |embeds| && 0 <= i < |EmbedAll(fx, embeds, parentId).1[e]| ==>
              Truthy(IdOf(EmbedAll(fx, embeds, parentId).1[e][i]))
              && Get(EmbedAll(fx, embeds, parentId).1[e][i], embeds[e].belongsToKey + "Id") == Some(parentId)
    decreases |embeds|
  {
    if embeds != [] {
      var init := embeds[..|embeds| - 1];
      var last := embeds[|embeds| - 1];
      EmbedAllPointsAtParent(fx, init, parentId);
      var mid := EmbedAll(fx, init, parentId);
      var stamped := Stamp(last.children, last.belongsToKey, parentId);
      EmbedAllStep(fx, embeds, parentId);
      EmbeddedChildrenPointAtParent(Lookup(mid.0, last.childType.key), last.childType.root,
                                    last.children, last.belongsToKey, parentId);
      var children := EmbedAll(fx, embeds, parentId).1;
      forall e, i | 0 <= e < |embeds| && 0 <= i < |children[e]|
        ensures Truthy(IdOf(children[e][i]))
        ensures Get(children[e][i], embeds[e].belongsToKey + "Id") == Some(parentId)
      {
        if e < |embeds| - 1 {
          assert children[e] == mid.1[e] && embeds[e] == init[e];
        } else {
          assert children[e] == PersistIn(mid.0, last.childType, stamped).1;
        }
      }
    }
  }

  /** Deleting several records keeps ids unique in every list, and none of
      the deleted ids can be fetched from `t`'s list afterwards. */
  lemma RemoveInDeletes(fx: Fixtures, t: ModelType, ids: seq<Option<Value>>)
    requires AllUnique(fx)
    ensures AllUnique(RemoveIn(fx, t, ids))
    ensures forall k :: 0 <= k < |ids| ==>
              FindOne(Lookup(RemoveIn(fx, t, ids), t.key).records, ids[k]).Err?
  {
    if ids != [] {
      RemoveAllDeletesExactly(Lookup(fx, t.key).records, ids);
    }
  }

  /** One more id in the batch is one more `_remove` on the list. */
  lemma RemoveInStep(fx: Fixtures, t: ModelType, ids: seq<Option<Value>>, i: nat)
    requires i < |ids|
    ensures var mid := RemoveIn(fx, t, ids[..i]);
            var st := Lookup(mid, t.key);
            RemoveIn(fx, t, ids[..i + 1]) == mid[t.key := TableState(RemoveFirst(st.records, ids[i]), st.idCounter)]
  {
    var prefix := ids[..i + 1];
    assert prefix[..i] == ids[..i] && prefix[i] == ids[i];
    var st0 := Lookup(fx, t.key);
    var mid := RemoveAll(st0.records, ids[..i]);
    assert RemoveAll(st0.records, prefix) == RemoveFirst(mid, ids[i]);
    if i > 0 {
      OverwriteTouched(fx, t.key, TableState(mid, st0.idCounter), TableState(RemoveFirst(mid, ids[i]), st0.idCounter));
    }
  }

  /** One more object in the batch is one more `_persist` on the list. */
  lemma PersistInStep(fx: Fixtures, t: ModelType, objs: seq<Record>, i: nat)
    requires i < |objs|
    ensures var (mid, done) := PersistIn(fx, t, objs[..i]);
            var (st, s) := Persisted(Lookup(mid, t.key), t.root, objs[i]);
            PersistIn(fx, t, objs[..i + 1]) == (mid[t.key := st], done + [s])
  {
    var prefix := objs[..i + 1];
    assert prefix[..i] == objs[..i] && prefix[i] == objs[i];
    var st0 := Lookup(fx, t.key);
    var (mid, done) := PersistAll(st0, t.root, objs[..i]);
    var (next, s) := Persisted(mid, t.root, objs[i]);
    assert PersistAll(st0, t.root, prefix) == (next, done + [s]);
    if i > 0 {
      OverwriteTouched(fx, t.key, mid, next);
    }
  }

  // ---------------------------------------------------------------------
  // The objects

  /** A per-type fixture array with the `idCounter` property the adapter
      stores on it. */
  class Table {
    var records: seq<Record>
    var idCounter: nat
    /** The dictionary key the array is stored under. */
    ghost const owner: string

    constructor (ghost owner: string, records: seq<Record>)
      ensures this.owner == owner && this.records == records && idCounter == 0
    {
      this.owner := owner;
      this.records := records;
      idCounter := 0;
    }

    function State(): TableState
      reads this
    {
      TableState(records, idCounter)
    }

    /** The counter loop of `_incrementIdInFixtures`: bump `idCounter`
        (from unset to 1, otherwise by one) until `root + idCounter` is an id
        no record uses. It runs at most |records| + 1 times. */
    method AdvanceCounter(root: string) returns (id: Value)
      modifies this
      ensures records == old(records)
      ensures idCounter == NextCounter(records, root, old(idCounter))
      ensures id == Candidate(root, idCounter)
    {
      ghost var start := idCounter;
      id := Null;
      while true
        invariant records == old(records) && start <= idCounter <= start + |records|
        invariant forall k :: start < k <= idCounter ==> Used(records, Candidate(root, k))
        decreases start + |records| - idCounter
      {
        if idCounter > 0 {
          idCounter := idCounter + 1;
        } else {
          idCounter := 1;
        }
        id := Candidate(root, idCounter);
        if FindIndex(records, Some(id)).None? {
          break;
        }
        UsedRunIsShort(records, root, start, idCounter);
      }
      NextCounterUnique(records, root, start, idCounter);
    }

    /** The search of `_persist` for an object with a truthy id: merge into
        the first record whose id is `===` the object's, or append it. */
    method MergeOrPush(obj: Record)
      modifies this
      ensures records == Upsert(old(records), obj) && idCounter == old(idCounter)
    {
      var i := 0;
      while i < |records|
        invariant 0 <= i <= |records| && records == old(records)
        invariant forall j :: 0 <= j < i ==> !StrictEquals(IdOf(records[j]), IdOf(obj))
      {
        if StrictEquals(IdOf(records[i]), IdOf(obj)) {
          FindIndexAt(records, IdOf(obj), i);
          UpsertMergesOrAppends(records, obj);
          records := records[i := Merge(records[i], obj)];
          return;
        }
        i := i + 1;
      }
      UpsertMergesOrAppends(records, obj);
      records := records + [obj];
    }

    /** The search of `_remove`: splice out the first record whose id is `=== id`. */
    method SpliceOut(id: Option<Value>)
      modifies this
      ensures records == RemoveFirst(old(records), id) && idCounter == old(idCounter)
    {
      var i := 0;
      while i < |records|
        invariant 0 <= i <= |records| && records == old(records)
        invariant forall j :: 0 <= j < i ==> !StrictEquals(IdOf(records[j]), id)
      {
        if StrictEquals(IdOf(records[i]), id) {
          FindIndexAt(records, id, i);
          RemoveFirstSplices(records, id);
          records := records[..i] + records[i + 1..];
          return;
        }
        i := i + 1;
      }
      RemoveFirstSplices(records, id);
    }
  }

  class FixtureAdapter {
    /** `_fixtures`: one array per model type. */
    var fixtures: map<string, Table>
    /** The lists and counters the arrays hold. */
    ghost var model: Fixtures
    ghost var Repr: set<object>

    /** Every array is in the footprint and owned by its key (so no two
        types share one array), and `model` is what the arrays hold. */
    ghost predicate Valid()
      reads this, Repr
      ensures Valid() ==> this in Repr
    {
      && this in Repr
      && fixtures.Keys == model.Keys
      && (forall k :: k in fixtures ==>
            && fixtures[k] in Repr
            && fixtures[k].owner == k
            && fixtures[k].records == model[k].records
            && fixtures[k].idCounter == model[k].idCounter)
    }

    /** Arrays already in the dictionary stay under their keys. */
    twostate predicate Keeps()
      reads this
    {
      forall k :: k in old(fixtures) ==> k in fixtures && fixtures[k] == old(fixtures)[k]
    }

    /** Changing the array under `key` alone, and `model` at `key` to match,
        keeps the object valid. */
    twostate lemma TableUpdated(key: string)
      requires old(Valid()) && key in old(fixtures)
      requires fixtures == old(fixtures) && Repr == old(Repr)
      requires forall o :: o in old(Repr) && o != this && o != fixtures[key] ==> unchanged(o)
      requires model == old(model)[key := fixtures[key].State()]
      ensures Valid()
    {
    }

    /** `init`: an empty dictionary. */
    constructor ()
      ensures Valid() && fresh(Repr) && model == map[]
    {
      fixtures := map[];
      model := map[];
      Repr := {this};
    }

    /** `reset`: forget every list. */
    method Reset()
      requires Valid()
      modifies this
      ensures Valid() && fresh(Repr - old(Repr)) && model == map[]
    {
      fixtures := map[];
      model := map[];
      Repr := {this};
    }

    /** `fixturesForType`: the stored array for the type, created empty and
        stored on first use, so later calls see the same array. */
    method FixturesForType(t: ModelType) returns (table: Table)
      requires Valid()
      modifies this
      ensures Valid() && fresh(Repr - old(Repr)) && Keeps()
      ensures t.key in fixtures && table == fixtures[t.key] && Repr == old(Repr) + {table}
      ensures t.key in old(fixtures) ==> fixtures == old(fixtures)
      ensures t.key !in old(fixtures) ==> fresh(table)
      ensures model == Touched(old(model), t.key)
    {
      if t.key in fixtures {
        table := fixtures[t.key];
      } else {
        table := new Table(t.key, []);
        fixtures := fixtures[t.key := table];
        model := model[t.key := EMPTY_TABLE];
        Repr := Repr + {table};
      }
    }

    /** `setFixtures`: store a new array holding `records`, whose counter is unset. */
    method SetFixtures(t: ModelType, records: seq<Record>)
      requires Valid()
      modifies this
      ensures Valid() && fresh(Repr - old(Repr))
      ensures t.key in fixtures && fresh(fixtures[t.key])
      ensures forall k :: k in old(fixtures) && k != t.key ==> k in fixtures && fixtures[k] == old(fixtures)[k]
      ensures t.key in old(fixtures) ==> old(fixtures)[t.key] !in Repr
      ensures model == old(model)[t.key := TableState(records, 0)]
    {
      var table := new Table(t.key, records);
      if t.key in fixtures {
        Repr := Repr - {fixtures[t.key]};
      }
      fixtures := fixtures[t.key := table];
      model := model[t.key := TableState(records, 0)];
      Repr := Repr + {table};
    }

    /** `_incrementIdInFixtures`: the next unused id `root + counter` of the
        type's list, with the counter left at it. */
    method IncrementIdInFixtures(t: ModelType) returns (id: Value)
      requires Valid()
      modifies Repr
      ensures Valid() && fresh(Repr - old(Repr)) && Keeps()
      ensures t.key in fixtures && Repr == old(Repr) + {fixtures[t.key]}
      ensures var before := Lookup(old(model), t.key);
              var c := NextCounter(before.records, t.root, before.idCounter);
              id == Candidate(t.root, c) && model == old(model)[t.key := TableState(before.records, c)]
    {
      ghost var before := Lookup(old(model), t.key);
      var table := FixturesForType(t);
      label fetched:
      id := table.AdvanceCounter(t.root);
      model := model[t.key := table.State()];
      TableUpdated@fetched(t.key);
      OverwriteTouched(old(model), t.key, before, table.State());
    }

    /** The branch of `_persist` for an object with a truthy id: merge into
        the first record with that id, or append. */
    method PersistWithId(t: ModelType, obj: Record)
      requires Valid() && Truthy(IdOf(obj))
      modifies Repr
      ensures Valid() && fresh(Repr - old(Repr)) && Keeps()
      ensures model == old(model)[t.key := Persisted(Lookup(old(model), t.key), t.root, obj).0]
    {
      ghost var before := Lookup(old(model), t.key);
      var table := FixturesForType(t);
      label fetched:
      table.MergeOrPush(obj);
      model := model[t.key := table.State()];
      TableUpdated@fetched(t.key);
      OverwriteTouched(old(model), t.key, before, table.State());
    }

    /** The branch of `_persist` for an object without a truthy id: it gets
        the next unused id and is appended. */
    method PersistNew(t: ModelType, obj: Record) returns (saved: Record)
      requires Valid() && !Truthy(IdOf(obj))
      modifies Repr
      ensures Valid() && fresh(Repr - old(Repr)) && Keeps()
      ensures var r := Persisted(Lookup(old(model), t.key), t.root, obj);
              saved == r.1 && model == old(model)[t.key := r.0]
    {
      ghost var before := Lookup(old(model), t.key);
      var id := IncrementIdInFixtures(t);
      var table := fixtures[t.key];
      ghost var counted := table.State();
      saved := obj["id" := id];
      label counted:
      table.records := table.records + [saved];
      model := model[t.key := table.State()];
      TableUpdated@counted(t.key);
      OverwriteTouched(old(model), t.key, counted, table.State());
    }

    /** `_persist`: merge into the first record with the same truthy id, or
        append; an object without a truthy id gets a fresh id and is appended. */
    method Persist(t: ModelType, obj: Record) returns (saved: Record)
      requires Valid()
      modifies Repr
      ensures Valid() && fresh(Repr - old(Repr)) && Keeps()
      ensures var r := Persisted(Lookup(old(model), t.key), t.root, obj);
              saved == r.1 && model == old(model)[t.key := r.0]
    {
      if Truthy(IdOf(obj)) {
        PersistWithId(t, obj);
        saved := obj;
      } else {
        saved := PersistNew(t, obj);
      }
    }

    /** `_remove`: splice out the first record whose id is `=== id`. */
    method Remove(t: ModelType, id: Option<Value>)
      requires Valid()
      modifies Repr
      ensures Valid() && fresh(Repr - old(Repr)) && Keeps()
      ensures var before := Lookup(old(model), t.key);
              model == old(model)[t.key := TableState(RemoveFirst(before.records, id), before.idCounter)]
    {
      ghost var before := Lookup(old(model), t.key);
      var table := FixturesForType(t);
      label fetched:
      table.SpliceOut(id);
      model := model[t.key := table.State()];
      TableUpdated@fetched(t.key);
      OverwriteTouched(old(model), t.key, before, table.State());
    }

    /** `_didFindOne`: the first record with id `=== id`, or the 404 failure.
        The lists are not changed (the type's list may be created empty). */
    method DidFindOne(t: ModelType, id: Option<Value>) returns (r: Result<Record, Failure>)
      requires Valid()
      modifies this
      ensures Valid() && fresh(Repr - old(Repr)) && Keeps()
      ensures model == Touched(old(model), t.key)
      ensures r == FindOne(Lookup(old(model), t.key).records, id)
    {
      var table := FixturesForType(t);
      r := FindOne(table.records, id);
    }

    /** `_didFindByQuery`: the matching records, sorted when asked. */
    method DidFindByQuery(t: ModelType, q: Query, filters: map<string, Filter>, macros: map<string, Comparator>)
      returns (records: seq<Record>)
      requires Valid()
      modifies this
      ensures Valid() && fresh(Repr - old(Repr)) && Keeps()
      ensures model == Touched(old(model), t.key)
      ensures records == QueryResult(Lookup(old(model), t.key).records, q, t.schema, filters, macros)
    {
      var table := FixturesForType(t);
      records := FilterRecords(table.records, q, t.schema, filters);
      var cmp := SortComparator(q, macros);
      if cmp.Some? {
        records := SortBy(records, cmp.value);
      }
    }

    /** `_didDeleteRecords`: one `_remove` per record, in order. */
    method DidDeleteRecords(t: ModelType, ids: seq<Option<Value>>)
      requires Valid()
      modifies Repr
      ensures Valid() && fresh(Repr - old(Repr)) && Keeps()
      ensures model == RemoveIn(old(model), t, ids)
    {
      var i := 0;
      while i < |ids|
        invariant 0 <= i <= |ids|
        invariant Valid() && fresh(Repr - old(Repr)) && Keeps()
        invariant model == RemoveIn(old(model), t, ids[..i])
      {
        RemoveInStep(old(model), t, ids, i);
        Remove(t, ids[i]);
        i := i + 1;
      }
      assert ids[..i] == ids;
    }

    /** `_didCommitTransactionBulk`: one `_persist` per object, in order;
        returns the objects as persisted. */
    method DidCommitTransactionBulk(t: ModelType, objs: seq<Record>) returns (saved: seq<Record>)
      requires Valid()
      modifies Repr
      ensures Valid() && fresh(Repr - old(Repr)) && Keeps()
      ensures (model, saved) == PersistIn(old(model), t, objs)
    {
      saved := [];
      var i := 0;
      while i < |objs|
        invariant 0 <= i <= |objs|
        invariant Valid() && fresh(Repr - old(Repr)) && Keeps()
        invariant (model, saved) == PersistIn(old(model), t, objs[..i])
      {
        PersistInStep(old(model), t, objs, i);
        var s := Persist(t, objs[i]);
        saved := saved + [s];
        i := i + 1;
      }
      assert objs[..i] == objs;
    }

    /** The child loop of `saveRecord` for one embed entry: set
        `belongsToKey + "Id"` on each child to the parent's id, then
        `_persist` it into the child type's list. */
    method PersistChildren(embed: Embed, parentId: Value) returns (kids: seq<Record>)
      requires Valid()
      modifies Repr
      ensures Valid() && fresh(Repr - old(Repr)) && Keeps()
      ensures (model, kids) == PersistIn(old(model), embed.childType,
                                         Stamp(embed.children, embed.belongsToKey, parentId))
    {
      ghost var stamped := Stamp(embed.children, embed.belongsToKey, parentId);
      kids := [];
      var c := 0;
      while c < |embed.children|
        invariant 0 <= c <= |embed.children|
        invariant Valid() && fresh(Repr - old(Repr)) && Keeps()
        invariant (model, kids) == PersistIn(old(model), embed.childType, stamped[..c])
      {
        PersistInStep(old(model), embed.childType, stamped, c);
        var child := embed.children[c][embed.belongsToKey + "Id" := parentId];
        var savedChild := Persist(embed.childType, child);
        kids := kids + [savedChild];
        c := c + 1;
      }
      assert stamped[..c] == stamped;
    }

    /** The simulated `saveRecord`: persist the record, then its embedded
        children, entry by entry; returns the record and the children as
        persisted, grouped by embed entry. */
    method SaveRecord(t: ModelType, data: Record, embeds: seq<Embed>)
      returns (saved: Record, children: seq<seq<Record>>)
      requires Valid()
      modifies Repr
      ensures Valid() && fresh(Repr - old(Repr)) && Keeps()
      ensures (model, saved, children) == SavedRecord(old(model), t, data, embeds)
    {
      saved := Persist(t, data);
      var parentId := IdOf(saved).value;
      ghost var afterRoot := model;
      children := [];
      var e := 0;
      while e < |embeds|
        invariant 0 <= e <= |embeds|
        invariant Valid() && fresh(Repr - old(Repr)) && Keeps()
        invariant (model, children) == EmbedAll(afterRoot, embeds[..e], parentId)
      {
        var kids := PersistChildren(embeds[e], parentId);
        children := children + [kids];
        assert embeds[..e + 1][..e] == embeds[..e];
        e := e + 1;
      }
      assert embeds[..e] == embeds;
    }
  }
}
