/** The adapter's documented behaviour on the small category fixtures its
    test suite sets up: Billy (id 1, lucky number 77) and Noah (id 2, lucky
    number 2). */
module Scenarios {
  import opened Values
  import opened Store
  import opened QueryEngine
  import opened Adapter

  const BILLY: Record := map["id" := Num(1), "name" := Str("Billy"), "luckyNumber" := Num(77)]
  const NOAH: Record := map["id" := Num(2), "name" := Str("Noah"), "luckyNumber" := Num(2)]
  const JOHN: Record := map["id" := Num(888), "name" := Str("John"), "luckyNumber" := Num(3)]
  const TESLA: Record := map["name" := Str("Tesla")]
  const EDISON: Record := map["name" := Str("Edison")]

  /** Attributes `name`, `luckyNumber` and `isPublic`; no belongs-to. */
  const CATEGORY_SCHEMA: Schema := Schema({"name", "luckyNumber", "isPublic"}, {})
  const CATEGORY: ModelType := ModelType("App.Category", "category", CATEGORY_SCHEMA)

  /** The `minLuckyNumber` filter: keep records whose lucky number is at least the parameter. */
  function MinLuckyNumber(data: Record, param: Value, q: Query): Value
  {
    if "luckyNumber" in data && data["luckyNumber"].Num? && param.Num?
    then Bool(data["luckyNumber"].n >= param.n)
    else Bool(false)
  }

  /** The `macroTest` sort macro: by length of name. */
  function NameLength(a: Record, b: Record): int
  {
    var la := if "name" in a && a["name"].Str? then |a["name"].s| else 0;
    var lb := if "name" in b && b["name"].Str? then |b["name"].s| else 0;
    la - lb
  }

  /** Filtering two records keeps each that matches, in order. */
  lemma FilteredPair(a: Record, b: Record, q: Query, schema: Schema, filters: map<string, Filter>)
    ensures Filtered([a, b], q, schema, filters)
            == (if Matches(a, q, schema, filters) then [a] else [])
               + (if Matches(b, q, schema, filters) then [b] else [])
  {
    assert [a, b][..1] == [a] && [a, b][1] == b;
    assert Filtered([a], q, schema, filters) == (if Matches(a, q, schema, filters) then [a] else []) by {
      assert [a][..0] == [];
    }
  }

  /** Sorting two records swaps them exactly when the first sorts after the second. */
  lemma SortedPair(a: Record, b: Record, cmp: Comparator)
    ensures SortBy([a, b], cmp) == if cmp(a, b) <= 0 then [a, b] else [b, a]
  {
    assert [a, b][1..] == [b] && [b][1..] == [];
    assert SortBy([b], cmp) == [b] by {
      assert SortBy([b], cmp) == Insert(b, SortBy([], cmp), cmp);
    }
    assert SortBy([a, b], cmp) == Insert(a, [b], cmp);
    assert Insert(a, [], cmp) == [a];
    assert [b][0] == b;
  }

  /** The `macroTest` comparator on Billy and Noah. */
  lemma NameLengthOrders()
    ensures NameLength(BILLY, NOAH) == 1
  {
    assert "name" in BILLY && BILLY["name"] == Str("Billy");
    assert "name" in NOAH && NOAH["name"] == Str("Noah");
    assert |"Billy"| == 5 && |"Noah"| == 4;
  }

  /** Saving a new category next to `category1` and `category2` gives it
      id `category3` and appends it as the third record. */
  lemma SaveMintsCategory3()
    ensures var rs := [map["id" := Str("category1"), "name" := Str("Billy")],
                       map["id" := Str("category2"), "name" := Str("Noah")]];
            var adam := map["name" := Str("Adam"), "isPublic" := Bool(true)];
            var (st, saved) := Persisted(TableState(rs, 0), "category", adam);
            saved == adam["id" := Str("category3")] && st.records == rs + [saved] && st.idCounter == 3
  {
    var rs := [map["id" := Str("category1"), "name" := Str("Billy")],
               map["id" := Str("category2"), "name" := Str("Noah")]];
    assert Candidate("category", 1) == Str("category1");
    assert Candidate("category", 2) == Str("category2");
    assert Candidate("category", 3) == Str("category3");
    assert FindIndex(rs, Some(Str("category1"))) == Some(0);
    assert FindIndex(rs, Some(Str("category2"))) == Some(1);
    assert FindIndex(rs, Some(Str("category3"))) == None;
    NextCounterUnique(rs, "category", 0, 3);
  }

  /** Looking up id 999 fails with status 404. */
  lemma FindOneMissesUnknownId()
    ensures FindOne([BILLY, NOAH], Some(Num(999))) == Err(Failure(404, "The record was not found."))
  {
    assert FindIndex([BILLY, NOAH], Some(Num(999))) == None;
  }

  /** Looking up id 1 yields Billy's record. */
  lemma FindOneFindsBilly()
    ensures FindOne([BILLY, NOAH], Some(Num(1))) == Ok(BILLY)
  {
    assert StrictEquals(IdOf(BILLY), Some(Num(1)));
    FindIndexAt([BILLY, NOAH], Some(Num(1)), 0);
  }

  /** Paging and unknown parameters do not filter; `name` does. */
  lemma QueryIgnoresUnknownParams()
    ensures var q := map["name" := Str("Noah"), "pageSize" := Num(100), "offset" := Num(100),
                         "include" := Str("category.thing"), "bingo" := Str("The Tuxedo Cat")];
            QueryResult([BILLY, NOAH], q, CATEGORY_SCHEMA, map[], map[]) == [NOAH]
  {
    var q := map["name" := Str("Noah"), "pageSize" := Num(100), "offset" := Num(100),
                 "include" := Str("category.thing"), "bingo" := Str("The Tuxedo Cat")];
    assert !ParamPasses(BILLY, "name", q, CATEGORY_SCHEMA, map[]);
    forall name | name in q
      ensures ParamPasses(NOAH, name, q, CATEGORY_SCHEMA, map[])
    {
      if name != "name" {
        assert !IsFilterable(CATEGORY_SCHEMA, name);
      }
    }
    FilteredPair(BILLY, NOAH, q, CATEGORY_SCHEMA, map[]);
  }

  /** A list parameter matches records whose field is one of its elements. */
  lemma QueryByList()
    ensures QueryResult([BILLY, NOAH, JOHN], map["luckyNumber" := List([Num(2), Num(3)])],
                        CATEGORY_SCHEMA, map[], map[]) == [NOAH, JOHN]
  {
    var q := map["luckyNumber" := List([Num(2), Num(3)])];
    assert !ParamPasses(BILLY, "luckyNumber", q, CATEGORY_SCHEMA, map[]);
    assert ParamPasses(NOAH, "luckyNumber", q, CATEGORY_SCHEMA, map[]) by {
      assert StrictEquals(Some([Num(2), Num(3)][0]), Get(NOAH, "luckyNumber"));
    }
    assert ParamPasses(JOHN, "luckyNumber", q, CATEGORY_SCHEMA, map[]) by {
      assert StrictEquals(Some([Num(2), Num(3)][1]), Get(JOHN, "luckyNumber"));
    }
    FilteredPair(BILLY, NOAH, q, CATEGORY_SCHEMA, map[]);
    assert [BILLY, NOAH, JOHN][..2] == [BILLY, NOAH];
  }

  /** Sorting by `name` descending puts Noah first. */
  lemma SortByNameDescending()
    ensures QueryResult([BILLY, NOAH], map["sortProperty" := Str("name"), "sortDirection" := Str("DESC")],
                        CATEGORY_SCHEMA, map[], map[]) == [NOAH, BILLY]
  {
    var q := map["sortProperty" := Str("name"), "sortDirection" := Str("DESC")];
    forall name | name in q
      ensures ParamPasses(BILLY, name, q, CATEGORY_SCHEMA, map[])
      ensures ParamPasses(NOAH, name, q, CATEGORY_SCHEMA, map[])
    {
      assert !IsFilterable(CATEGORY_SCHEMA, name);
    }
    FilteredPair(BILLY, NOAH, q, CATEGORY_SCHEMA, map[]);
    var cmp := SortComparator(q, map[]).value;
    assert LocaleCompare("Billy", "Noah") == -1;
    assert cmp(BILLY, NOAH) == 1;
    SortedPair(BILLY, NOAH, cmp);
  }

  /** Sorting by a number field ascending puts the smaller lucky number first. */
  lemma SortByNumberAscending()
    ensures QueryResult([BILLY, NOAH], map["sortProperty" := Str("luckyNumber")],
                        CATEGORY_SCHEMA, map[], map[]) == [NOAH, BILLY]
  {
    var q := map["sortProperty" := Str("luckyNumber")];
    assert !IsFilterable(CATEGORY_SCHEMA, "sortProperty");
    FilteredPair(BILLY, NOAH, q, CATEGORY_SCHEMA, map[]);
    var cmp := SortComparator(q, map[]).value;
    assert cmp(BILLY, NOAH) == 75;
    SortedPair(BILLY, NOAH, cmp);
  }

  /** A sort macro replaces the default comparator: Noah's name is shorter. */
  lemma SortByMacro()
    ensures QueryResult([BILLY, NOAH], map["sortProperty" := Str("macroTest")],
                        CATEGORY_SCHEMA, map[], map["macroTest" := NameLength]) == [NOAH, BILLY]
  {
    var q := map["sortProperty" := Str("macroTest")];
    assert !IsFilterable(CATEGORY_SCHEMA, "sortProperty");
    FilteredPair(BILLY, NOAH, q, CATEGORY_SCHEMA, map[]);
    var cmp := SortComparator(q, map["macroTest" := NameLength]).value;
    NameLengthOrders();
    assert cmp(BILLY, NOAH) == 1;
    SortedPair(BILLY, NOAH, cmp);
  }

  /** A registered filter decides for its parameter. */
  lemma QueryByCustomFilter()
    ensures QueryResult([BILLY, NOAH], map["minLuckyNumber" := Num(5)], CATEGORY_SCHEMA,
                        map["minLuckyNumber" := MinLuckyNumber], map[]) == [BILLY]
    ensures QueryResult([BILLY, NOAH], map["minLuckyNumber" := Num(78)], CATEGORY_SCHEMA,
                        map["minLuckyNumber" := MinLuckyNumber], map[]) == []
  {
    var filters := map["minLuckyNumber" := MinLuckyNumber];
    var q5 := map["minLuckyNumber" := Num(5)];
    var q78 := map["minLuckyNumber" := Num(78)];
    assert MinLuckyNumber(BILLY, Num(5), q5) == Bool(true);
    assert MinLuckyNumber(NOAH, Num(5), q5) == Bool(false);
    assert MinLuckyNumber(BILLY, Num(78), q78) == Bool(false);
    assert MinLuckyNumber(NOAH, Num(78), q78) == Bool(false);
    assert Matches(BILLY, q5, CATEGORY_SCHEMA, filters);
    assert !ParamPasses(NOAH, "minLuckyNumber", q5, CATEGORY_SCHEMA, filters);
    assert !ParamPasses(BILLY, "minLuckyNumber", q78, CATEGORY_SCHEMA, filters);
    assert !ParamPasses(NOAH, "minLuckyNumber", q78, CATEGORY_SCHEMA, filters);
    FilteredPair(BILLY, NOAH, q5, CATEGORY_SCHEMA, filters);
    FilteredPair(BILLY, NOAH, q78, CATEGORY_SCHEMA, filters);
  }

  /** A batch of two is two persists in order. */
  lemma PersistAllPair(st: TableState, root: string, a: Record, b: Record)
    ensures var first := Persisted(st, root, a);
            var second := Persisted(first.0, root, b);
            PersistAll(st, root, [a, b]) == (second.0, [first.1, second.1])
  {
    var first := Persisted(st, root, a);
    assert [a][..|[a]| - 1] == [] && [a][|[a]| - 1] == a;
    assert PersistAll(st, root, []) == (st, []);
    assert PersistAll(st, root, [a]) == (first.0, [] + [first.1]);
    assert [a, b][..|[a, b]| - 1] == [a] && [a, b][|[a, b]| - 1] == b;
    var second := Persisted(first.0, root, b);
    assert PersistAll(st, root, [a, b]) == (second.0, ([] + [first.1]) + [second.1]);
    assert ([] + [first.1]) + [second.1] == [first.1, second.1];
  }

  /** The first new category takes `category1`: ids 1 and 2 are numbers. */
  lemma MintsCategory1()
    ensures Persisted(TableState([BILLY, NOAH], 0), "category", TESLA)
            == (TableState([BILLY, NOAH, TESLA["id" := Str("category1")]], 1), TESLA["id" := Str("category1")])
  {
    assert Candidate("category", 1) == Str("category1");
    assert FindIndex([BILLY, NOAH], Some(Str("category1"))) == None;
    NextCounterUnique([BILLY, NOAH], "category", 0, 1);
    assert !Truthy(IdOf(TESLA));
    assert [BILLY, NOAH] + [TESLA["id" := Str("category1")]] == [BILLY, NOAH, TESLA["id" := Str("category1")]];
  }

  /** The second takes `category2`. */
  lemma MintsCategory2()
    ensures var rs := [BILLY, NOAH, TESLA["id" := Str("category1")]];
            Persisted(TableState(rs, 1), "category", EDISON)
            == (TableState(rs + [EDISON["id" := Str("category2")]], 2), EDISON["id" := Str("category2")])
  {
    var rs := [BILLY, NOAH, TESLA["id" := Str("category1")]];
    assert Candidate("category", 2) == Str("category2");
    assert FindIndex(rs, Some(Str("category2"))) == None;
    NextCounterUnique(rs, "category", 1, 2);
  }

  /** Committing two new categories appends them with minted ids. */
  lemma BulkAddsNewRecords()
    ensures var (st, saved) := PersistAll(TableState([BILLY, NOAH], 0), "category",
                                          [map["name" := Str("Tesla")], map["name" := Str("Edison")]]);
            |st.records| == 4
            && saved == [map["name" := Str("Tesla"), "id" := Str("category1")],
                         map["name" := Str("Edison"), "id" := Str("category2")]]
  {
    assert [map["name" := Str("Tesla")], map["name" := Str("Edison")]] == [TESLA, EDISON];
    PersistAllPair(TableState([BILLY, NOAH], 0), "category", TESLA, EDISON);
    MintsCategory1();
    MintsCategory2();
  }

  /** Committing an existing id merges the new name into that record. */
  lemma BulkUpdatesExistingRecord()
    ensures var (st, _) := PersistAll(TableState([BILLY, NOAH], 0), "category",
                                      [map["id" := Num(1), "name" := Str("New Billy")]]);
            st.records == [BILLY["name" := Str("New Billy")], NOAH]
  {
    var objs := [map["id" := Num(1), "name" := Str("New Billy")]];
    assert objs[..0] == [];
    assert Merge(BILLY, objs[0]) == BILLY["name" := Str("New Billy")];
  }

  /** Deleting both categories through the adapter object leaves their list empty. */
  method DeleteRecordsEmptiesList() returns (remaining: seq<Record>)
    ensures remaining == []
  {
    var adapter := new FixtureAdapter();
    adapter.SetFixtures(CATEGORY, [BILLY, NOAH]);
    adapter.DidDeleteRecords(CATEGORY, [Some(Num(1)), Some(Num(2))]);
    RemovesBoth();
    var table := adapter.FixturesForType(CATEGORY);
    remaining := table.records;
  }

  /** `fixturesForType` yields the same array before and after a persist into
      it and a removal from any type. */
  method FixturesForTypeIsStable(adapter: FixtureAdapter, t: ModelType, u: ModelType, obj: Record, id: Option<Value>)
    returns (first: Table, second: Table)
    requires adapter.Valid()
    modifies adapter, adapter.Repr
    ensures first == second && adapter.Valid()
  {
    first := adapter.FixturesForType(t);
    var _ := adapter.Persist(t, obj);
    adapter.Remove(u, id);
    second := adapter.FixturesForType(t);
  }

  /** Removing ids 1 and 2 from Billy and Noah leaves nothing. */
  lemma RemovesBoth()
    ensures RemoveAll([BILLY, NOAH], [Some(Num(1)), Some(Num(2))]) == []
  {
    var ids := [Some(Num(1)), Some(Num(2))];
    assert ids[..1] == [Some(Num(1))] && ids[..1][..0] == [];
    assert RemoveAll([BILLY, NOAH], []) == [BILLY, NOAH];
    assert RemoveFirst([BILLY, NOAH], Some(Num(1))) == [NOAH] by {
      assert StrictEquals(IdOf(BILLY), Some(Num(1)));
      assert [BILLY, NOAH][1..] == [NOAH];
    }
    assert RemoveAll([BILLY, NOAH], ids[..1]) == [NOAH];
    assert RemoveFirst([NOAH], Some(Num(2))) == [] by {
      assert StrictEquals(IdOf(NOAH), Some(Num(2)));
      assert [NOAH][1..] == [];
    }
  }
}
