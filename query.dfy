/** The query engine of `_didFindByQuery`: a conjunction of per-parameter
    filters over one fixture list, then an optional sort. */
module QueryEngine {
  import opened Values

  /** The names the host model type declares: its attributes and its
      belongs-to relationships. */
  datatype Schema = Schema(attributes: set<string>, belongsTo: set<string>)

  /** Query parameters, name to value. */
  type Query = map<string, Value>

  /** A registered custom filter: called with the record, the parameter's
      value and the whole query. */
  type Filter = (Record, Value, Query) -> Value

  /** A comparator: negative, zero or positive like a JavaScript sort callback. */
  type Comparator = (Record, Record) -> int

  // ---------------------------------------------------------------------
  // Filtering

  /** `name.replace(/Id$/, '')`. */
  function StripIdSuffix(name: string): (r: string)
    ensures r + (if |r| < |name| then "Id" else "") == name
    ensures |r| < |name| <==> |name| >= 2 && name[|name| - 2..] == "Id"
  {
    if |name| >= 2 && name[|name| - 2..] == "Id" then name[..|name| - 2] else name
  }

  /** A parameter filters by field value only when it names an attribute or,
      without a trailing `Id`, a belongs-to relationship. */
  predicate IsFilterable(schema: Schema, name: string)
  {
    name in schema.attributes || StripIdSuffix(name) in schema.belongsTo
  }

  /** `list.contains(value)`: membership under `===`. */
  predicate Contains(items: seq<Value>, v: Option<Value>)
  {
    exists j :: 0 <= j < |items| && StrictEquals(Some(items[j]), v)
  }

  /** Whether one query parameter lets a record through. */
  predicate ParamPasses(data: Record, name: string, q: Query, schema: Schema, filters: map<string, Filter>)
    requires name in q
  {
    if name in filters then filters[name](data, q[name], q) != Bool(false)
    else if !IsFilterable(schema, name) then true
    else match q[name]
      case List(items) => Contains(items, Get(data, name))
      case other => StrictEquals(Get(data, name), Some(other))
  }

  /** A record matches when every parameter lets it through. */
  predicate Matches(data: Record, q: Query, schema: Schema, filters: map<string, Filter>)
  {
    forall name :: name in q ==> ParamPasses(data, name, q, schema, filters)
  }

  /** The matching records, in list order. */
  function Filtered(rs: seq<Record>, q: Query, schema: Schema, filters: map<string, Filter>): seq<Record>
  {
    if rs == [] then []
    else
      Filtered(rs[..|rs| - 1], q, schema, filters)
      + (if Matches(rs[|rs| - 1], q, schema, filters) then [rs[|rs| - 1]] else [])
  }

  /** Filtering distributes over concatenation, so the result keeps list
      order: with the one-record case, this pins the result down as the
      subsequence of matching records. */
  lemma {:induction false} FilteredDistributes(a: seq<Record>, b: seq<Record>, q: Query, schema: Schema,
                                               filters: map<string, Filter>)
    ensures Filtered(a + b, q, schema, filters) == Filtered(a, q, schema, filters) + Filtered(b, q, schema, filters)
    decreases |b|
  {
    if b == [] {
      assert a + b == a;
    } else {
      var b' := b[..|b| - 1];
      assert (a + b)[..|a + b| - 1] == a + b';
      FilteredDistributes(a, b', q, schema, filters);
    }
  }

  /** A record is in the result exactly when it is in the list and matches. */
  lemma {:induction false} FilteredMembers(rs: seq<Record>, q: Query, schema: Schema, filters: map<string, Filter>)
    ensures forall x :: x in Filtered(rs, q, schema, filters) <==> x in rs && Matches(x, q, schema, filters)
    ensures |Filtered(rs, q, schema, filters)| <= |rs|
    decreases |rs|
  {
    if rs != [] {
      var init := rs[..|rs| - 1];
      FilteredMembers(init, q, schema, filters);
      assert rs == init + [rs[|rs| - 1]];
    }
  }

  /** What each kind of parameter guarantees of every returned record: a
      registered filter did not return `false`; a list value contains the
      record's field; any other value is `===` the record's field. */
  lemma FilteredRecordsPassEachParam(rs: seq<Record>, q: Query, schema: Schema, filters: map<string, Filter>,
                                     x: Record, name: string)
    requires x in Filtered(rs, q, schema, filters) && name in q
    ensures name in filters ==> filters[name](x, q[name], q) != Bool(false)
    ensures name !in filters && IsFilterable(schema, name) && q[name].List? ==>
              name in x && x[name] in q[name].items && Comparable(x[name])
    ensures name !in filters && IsFilterable(schema, name) && !q[name].List? ==>
              name in x && x[name] == q[name] && Comparable(x[name])
  {
    FilteredMembers(rs, q, schema, filters);
    assert ParamPasses(x, name, q, schema, filters);
    if name !in filters && IsFilterable(schema, name) && q[name].List? {
      var j :| 0 <= j < |q[name].items| && StrictEquals(Some(q[name].items[j]), Get(x, name));
    }
  }

  /** Parameters that are neither filters nor declared names (`pageSize`,
      `offset`, `include`, ...) exclude nothing. */
  lemma {:induction false} IgnoredParamsKeepAll(rs: seq<Record>, q: Query, schema: Schema, filters: map<string, Filter>)
    requires forall name :: name in q ==> name !in filters && !IsFilterable(schema, name)
    ensures Filtered(rs, q, schema, filters) == rs
    decreases |rs|
  {
    if rs != [] {
      IgnoredParamsKeepAll(rs[..|rs| - 1], q, schema, filters);
      assert Matches(rs[|rs| - 1], q, schema, filters);
      assert rs[..|rs| - 1] + [rs[|rs| - 1]] == rs;
    }
  }

  /** The `for..in` over the query parameters for one record, with its
      `break` on a failing parameter and its `continue` past parameters that
      filter nothing. Parameters are visited in an unspecified order. */
  method RecordMatches(data: Record, q: Query, schema: Schema, filters: map<string, Filter>)
    returns (isMatch: bool)
    ensures isMatch <==> Matches(data, q, schema, filters)
  {
    isMatch := true;
    ghost var culprit := "";
    var pending := q.Keys;
    while pending != {}
      invariant pending <= q.Keys
      invariant forall name :: name in q && name !in pending ==> ParamPasses(data, name, q, schema, filters)
      decreases |pending|
    {
      var name :| name in pending;
      pending := pending - {name};
      var queryValue := q[name];
      if name in filters {
        if filters[name](data, queryValue, q) == Bool(false) {
          isMatch, culprit := false, name;
          break;
        }
      } else {
        if !IsFilterable(schema, name) {
          continue;
        }
        var value := Get(data, name);
        if queryValue.List? {
          if !Contains(queryValue.items, value) {
            isMatch, culprit := false, name;
            break;
          }
        } else {
          if !StrictEquals(value, Some(queryValue)) {
            isMatch, culprit := false, name;
            break;
          }
        }
      }
    }
    assert !isMatch ==> culprit in q && !ParamPasses(data, culprit, q, schema, filters);
  }

  /** The `forEach` over the list in `_didFindByQuery`: the records that
      match every parameter, in list order. */
  method FilterRecords(records: seq<Record>, q: Query, schema: Schema, filters: map<string, Filter>)
    returns (selected: seq<Record>)
    ensures selected == Filtered(records, q, schema, filters)
  {
    selected := [];
    var i := 0;
    while i < |records|
      invariant 0 <= i <= |records|
      invariant selected == Filtered(records[..i], q, schema, filters)
    {
      var isMatch := RecordMatches(records[i], q, schema, filters);
      if isMatch {
        selected := selected + [records[i]];
      }
      assert records[..i + 1][..i] == records[..i];
      i := i + 1;
    }
    assert records[..i] == records;
  }

  // ---------------------------------------------------------------------
  // Sorting

  /** `localeCompare`, modelled as lexicographic order on character codes. */
  function LocaleCompare(a: string, b: string): (r: int)
    ensures -1 <= r <= 1
    ensures r == 0 <==> a == b
  {
    if a == [] && b == [] then 0
    else if a == [] then -1
    else if b == [] then 1
    else if a[0] < b[0] then -1
    else if a[0] > b[0] then 1
    else
      var r := LocaleCompare(a[1..], b[1..]);
      assert a == [a[0]] + a[1..] && b == [b[0]] + b[1..];
      r
  }

  lemma {:induction false} LocaleCompareAntisymmetric(a: string, b: string)
    ensures LocaleCompare(a, b) == -LocaleCompare(b, a)
  {
    if a != [] && b != [] && a[0] == b[0] {
      LocaleCompareAntisymmetric(a[1..], b[1..]);
    }
  }

  lemma {:induction false} LocaleCompareTransitive(a: string, b: string, c: string)
    requires LocaleCompare(a, b) <= 0 && LocaleCompare(b, c) <= 0
    ensures LocaleCompare(a, c) <= 0
  {
    if a != [] && b != [] && c != [] && a[0] == b[0] && b[0] == c[0] {
      LocaleCompareTransitive(a[1..], b[1..], c[1..]);
    }
  }

  /** The operand of `av - bv`: `None` stands for NaN. */
  function ToNumber(v: Option<Value>): Option<int>
  {
    match v
    case Some(Num(n)) => Some(n)
    case Some(Null) => Some(0)
    case Some(Bool(b)) => Some(if b then 1 else 0)
    case _ => None
  }

  /** The default comparator on field `p`: string comparison when both values
      are strings, numeric difference otherwise; a NaN difference orders as a tie. */
  function DefaultCompare(p: string, a: Record, b: Record): int
  {
    var av, bv := Get(a, p), Get(b, p);
    if av.Some? && av.value.Str? && bv.Some? && bv.value.Str? then LocaleCompare(av.value.s, bv.value.s)
    else match (ToNumber(av), ToNumber(bv))
      case (Some(x), Some(y)) => x - y
      case _ => 0
  }

  /** `sortDirection === 'DESC'` flips the comparator's sign. */
  function SortFactor(q: Query): (f: int)
    ensures f == -1 <==> Get(q, "sortDirection") == Some(Str("DESC"))
    ensures f == 1 || f == -1
  {
    if Get(q, "sortDirection") == Some(Str("DESC")) then -1 else 1
  }

  /** The comparator `records.sort` is given, if `sortProperty` is set: the
      registered sort macro for it, else the default comparator on that field,
      either way multiplied by the sort factor. */
  function SortComparator(q: Query, macros: map<string, Comparator>): Option<Comparator>
  {
    match Get(q, "sortProperty")
    case Some(Str(p)) =>
      if p == "" then None
      else
        var factor := SortFactor(q);
        if p in macros then
          var m := macros[p];
          Some((a: Record, b: Record) => factor * m(a, b))
        else
          Some((a: Record, b: Record) => factor * DefaultCompare(p, a, b))
    case _ => None
  }

  /** Insert `x` before the first element it does not sort after. */
  function Insert(x: Record, s: seq<Record>, cmp: Comparator): seq<Record>
  {
    if s == [] || cmp(x, s[0]) <= 0 then [x] + s else [s[0]] + Insert(x, s[1..], cmp)
  }

  /** `Array.prototype.sort` with comparator `cmp`. The order of ties is not
      specified by the source, so this insertion sort fixes one. */
  function SortBy(rs: seq<Record>, cmp: Comparator): seq<Record>
  {
    if rs == [] then [] else Insert(rs[0], SortBy(rs[1..], cmp), cmp)
  }

  predicate Sorted(rs: seq<Record>, cmp: Comparator)
  {
    forall i, j :: 0 <= i < j < |rs| ==> cmp(rs[i], rs[j]) <= 0
  }

  /** `a` sorts no later than `b`. */
  ghost predicate Le(cmp: Comparator, a: Record, b: Record)
  {
    cmp(a, b) <= 0
  }

  /** `cmp` is a total preorder on the records of `dom`. */
  ghost predicate TotalPreorderOn(cmp: Comparator, dom: seq<Record>)
  {
    && (forall a, b {:trigger Le(cmp, a, b)} :: a in dom && b in dom ==> Le(cmp, a, b) || Le(cmp, b, a))
    && (forall a, b, c {:trigger Le(cmp, a, b), Le(cmp, b, c)} ::
          a in dom && b in dom && c in dom && Le(cmp, a, b) && Le(cmp, b, c) ==> Le(cmp, a, c))
  }

  lemma Total(cmp: Comparator, dom: seq<Record>, a: Record, b: Record)
    requires TotalPreorderOn(cmp, dom) && a in dom && b in dom
    ensures cmp(a, b) <= 0 || cmp(b, a) <= 0
  {
    assert Le(cmp, a, b) || Le(cmp, b, a);
  }

  lemma Transitive(cmp: Comparator, dom: seq<Record>, a: Record, b: Record, c: Record)
    requires TotalPreorderOn(cmp, dom) && a in dom && b in dom && c in dom
    requires cmp(a, b) <= 0 && cmp(b, c) <= 0
    ensures cmp(a, c) <= 0
  {
    assert Le(cmp, a, b) && Le(cmp, b, c);
  }

  lemma {:induction false} InsertPermutes(x: Record, s: seq<Record>, cmp: Comparator)
    ensures multiset(Insert(x, s, cmp)) == multiset(s) + multiset{x}
  {
    if s != [] && cmp(x, s[0]) > 0 {
      InsertPermutes(x, s[1..], cmp);
      assert s == [s[0]] + s[1..];
    }
  }

  /** Sorting only reorders: the result is a permutation of the input. */
  lemma {:induction false} SortByPermutes(rs: seq<Record>, cmp: Comparator)
    ensures multiset(SortBy(rs, cmp)) == multiset(rs)
    ensures |SortBy(rs, cmp)| == |rs|
  {
    if rs != [] {
      SortByPermutes(rs[1..], cmp);
      InsertPermutes(rs[0], SortBy(rs[1..], cmp), cmp);
      assert rs == [rs[0]] + rs[1..];
    }
  }

  /** Inserting in front of a sorted list whose head `x` does not follow. */
  lemma InsertFrontSorted(x: Record, s: seq<Record>, cmp: Comparator, dom: seq<Record>)
    requires TotalPreorderOn(cmp, dom)
    requires x in dom && forall y :: y in s ==> y in dom
    requires Sorted(s, cmp) && s != [] && cmp(x, s[0]) <= 0
    ensures Sorted([x] + s, cmp)
  {
    var r := [x] + s;
    forall i, j | 0 <= i < j < |r| ensures cmp(r[i], r[j]) <= 0 {
      if i == 0 && j > 1 {
        assert cmp(s[0], s[j - 1]) <= 0;
        Transitive(cmp, dom, x, s[0], s[j - 1]);
      }
    }
  }

  /** Prepending an element that sorts no later than all of a sorted list. */
  lemma ConsSorted(h: Record, rest: seq<Record>, cmp: Comparator)
    requires Sorted(rest, cmp)
    requires forall y :: y in rest ==> cmp(h, y) <= 0
    ensures Sorted([h] + rest, cmp)
  {
    var r := [h] + rest;
    forall i, j | 0 <= i < j < |r| ensures cmp(r[i], r[j]) <= 0 {
      if i == 0 {
        assert r[j] == rest[j - 1];
        assert r[j] in rest;
      } else {
        assert r[i] == rest[i - 1] && r[j] == rest[j - 1];
      }
    }
  }

  /** The head of a sorted list sorts no later than anything after it. */
  lemma SortedHeadFirst(s: seq<Record>, cmp: Comparator)
    requires Sorted(s, cmp) && s != []
    ensures forall y :: y in s[1..] ==> cmp(s[0], y) <= 0
  {
    forall y | y in s[1..] ensures cmp(s[0], y) <= 0 {
      var k :| 0 <= k < |s[1..]| && s[1..][k] == y;
      assert s[k + 1] == y;
    }
  }

  /** A lower bound of `x` and of every element of `s` bounds the insertion too. */
  lemma InsertKeepsLowerBound(h: Record, x: Record, s: seq<Record>, cmp: Comparator)
    requires cmp(h, x) <= 0 && forall y :: y in s ==> cmp(h, y) <= 0
    ensures forall y :: y in Insert(x, s, cmp) ==> cmp(h, y) <= 0
  {
    InsertPermutes(x, s, cmp);
    forall y | y in Insert(x, s, cmp) ensures cmp(h, y) <= 0 {
      assert y in multiset(Insert(x, s, cmp));
      if y != x {
        assert y in multiset(s);
      }
    }
  }

  lemma {:induction false} InsertSorted(x: Record, s: seq<Record>, cmp: Comparator, dom: seq<Record>)
    requires TotalPreorderOn(cmp, dom)
    requires x in dom && forall y :: y in s ==> y in dom
    requires Sorted(s, cmp)
    ensures Sorted(Insert(x, s, cmp), cmp)
  {
    if s == [] {
    } else if cmp(x, s[0]) <= 0 {
      InsertFrontSorted(x, s, cmp, dom);
    } else {
      var tail := s[1..];
      assert forall y :: y in tail ==> y in s;
      assert forall i, j :: 0 <= i < j < |tail| ==> tail[i] == s[i + 1] && tail[j] == s[j + 1];
      InsertSorted(x, tail, cmp, dom);
      Total(cmp, dom, x, s[0]);
      SortedHeadFirst(s, cmp);
      InsertKeepsLowerBound(s[0], x, tail, cmp);
      ConsSorted(s[0], Insert(x, tail, cmp), cmp);
      assert Insert(x, s, cmp) == [s[0]] + Insert(x, tail, cmp);
    }
  }

  /** With a comparator that totally preorders the input, the result is sorted. */
  lemma {:induction false} SortBySorts(rs: seq<Record>, cmp: Comparator)
    requires TotalPreorderOn(cmp, rs)
    ensures Sorted(SortBy(rs, cmp), cmp)
  {
    if rs != [] {
      assert forall y :: y in rs[1..] ==> y in rs;
      assert TotalPreorderOn(cmp, rs[1..]);
      SortBySorts(rs[1..], cmp);
      SortByPermutes(rs[1..], cmp);
      forall y | y in SortBy(rs[1..], cmp) ensures y in rs {
        assert y in multiset(rs[1..]);
      }
      InsertSorted(rs[0], SortBy(rs[1..], cmp), cmp, rs);
    }
  }

  /** The payload records of `_didFindByQuery`: the matching records, sorted
      when a sort property is given. */
  function QueryResult(rs: seq<Record>, q: Query, schema: Schema, filters: map<string, Filter>,
                       macros: map<string, Comparator>): seq<Record>
  {
    var selected := Filtered(rs, q, schema, filters);
    match SortComparator(q, macros)
    case None => selected
    case Some(cmp) => SortBy(selected, cmp)
  }

  /** The result is a permutation of the matching records; without a sort
      property it is exactly them in list order; with one whose comparator
      totally preorders them, it is sorted. */
  lemma QueryResultSpec(rs: seq<Record>, q: Query, schema: Schema, filters: map<string, Filter>,
                        macros: map<string, Comparator>)
    ensures multiset(QueryResult(rs, q, schema, filters, macros)) == multiset(Filtered(rs, q, schema, filters))
    ensures SortComparator(q, macros).None? ==> QueryResult(rs, q, schema, filters, macros) == Filtered(rs, q, schema, filters)
    ensures SortComparator(q, macros).Some? && TotalPreorderOn(SortComparator(q, macros).value, Filtered(rs, q, schema, filters))
            ==> Sorted(QueryResult(rs, q, schema, filters, macros), SortComparator(q, macros).value)
  {
    var selected := Filtered(rs, q, schema, filters);
    if SortComparator(q, macros).Some? {
      var cmp := SortComparator(q, macros).value;
      SortByPermutes(selected, cmp);
      if TotalPreorderOn(cmp, selected) {
        SortBySorts(selected, cmp);
      }
    }
  }

  lemma DefaultCompareAntisymmetric(p: string, a: Record, b: Record)
    ensures DefaultCompare(p, a, b) == -DefaultCompare(p, b, a)
  {
    var av, bv := Get(a, p), Get(b, p);
    if av.Some? && av.value.Str? && bv.Some? && bv.value.Str? {
      LocaleCompareAntisymmetric(av.value.s, bv.value.s);
    }
  }

  /** All strings at `p`, or all numbers: then the default comparator, in
      either direction, is a total preorder. */
  predicate HomogeneousAt(p: string, dom: seq<Record>)
  {
    || (forall r :: r in dom ==> Get(r, p).Some? && Get(r, p).value.Str?)
    || (forall r :: r in dom ==> ToNumber(Get(r, p)).Some?)
  }

  /** Transitivity of the default comparator, ascending or descending, on
      three records whose field `p` holds a string. */
  lemma DefaultCompareTransitiveOnStrings(p: string, factor: int, a: Record, b: Record, c: Record)
    requires factor == 1 || factor == -1
    requires Get(a, p).Some? && Get(a, p).value.Str?
    requires Get(b, p).Some? && Get(b, p).value.Str?
    requires Get(c, p).Some? && Get(c, p).value.Str?
    requires factor * DefaultCompare(p, a, b) <= 0 && factor * DefaultCompare(p, b, c) <= 0
    ensures factor * DefaultCompare(p, a, c) <= 0
  {
    var sa, sb, sc := Get(a, p).value.s, Get(b, p).value.s, Get(c, p).value.s;
    if factor == 1 {
      LocaleCompareTransitive(sa, sb, sc);
    } else {
      LocaleCompareAntisymmetric(sa, sb);
      LocaleCompareAntisymmetric(sb, sc);
      LocaleCompareAntisymmetric(sa, sc);
      LocaleCompareTransitive(sc, sb, sa);
    }
  }

  /** Transitivity of the default comparator, ascending or descending, on
      three records whose field `p` converts to a number. */
  lemma DefaultCompareTransitiveOnNumbers(p: string, factor: int, a: Record, b: Record, c: Record)
    requires factor == 1 || factor == -1
    requires ToNumber(Get(a, p)).Some? && ToNumber(Get(b, p)).Some? && ToNumber(Get(c, p)).Some?
    requires factor * DefaultCompare(p, a, b) <= 0 && factor * DefaultCompare(p, b, c) <= 0
    ensures factor * DefaultCompare(p, a, c) <= 0
  {
    assert !Get(a, p).value.Str? && !Get(b, p).value.Str? && !Get(c, p).value.Str?;
    var x, y, z := ToNumber(Get(a, p)).value, ToNumber(Get(b, p)).value, ToNumber(Get(c, p)).value;
    assert DefaultCompare(p, a, b) == x - y && DefaultCompare(p, b, c) == y - z;
    assert DefaultCompare(p, a, c) == x - z;
    if factor == 1 {
      assert x <= y <= z;
    } else {
      assert x >= y >= z;
    }
  }

  lemma DefaultCompareTotalPreorder(p: string, factor: int, dom: seq<Record>)
    requires factor == 1 || factor == -1
    requires HomogeneousAt(p, dom)
    ensures TotalPreorderOn((a: Record, b: Record) => factor * DefaultCompare(p, a, b), dom)
  {
    var cmp := (a: Record, b: Record) => factor * DefaultCompare(p, a, b);
    forall a, b | a in dom && b in dom ensures Le(cmp, a, b) || Le(cmp, b, a) {
      DefaultCompareAntisymmetric(p, a, b);
      assert cmp(a, b) == -cmp(b, a);
    }
    var strings := forall r :: r in dom ==> Get(r, p).Some? && Get(r, p).value.Str?;
    forall a, b, c | a in dom && b in dom && c in dom && Le(cmp, a, b) && Le(cmp, b, c)
      ensures Le(cmp, a, c)
    {
      assert factor * DefaultCompare(p, a, b) <= 0 && factor * DefaultCompare(p, b, c) <= 0;
      if strings {
        DefaultCompareTransitiveOnStrings(p, factor, a, b, c);
      } else {
        DefaultCompareTransitiveOnNumbers(p, factor, a, b, c);
      }
    }
  }

  /** The string at field `p`, or the empty string when there is none. */
  function FieldString(r: Record, p: string): string
  {
    match Get(r, p)
    case Some(Str(s)) => s
    case _ => ""
  }

  /** On two records holding strings at `p`, the default comparator is the
      string comparison of those strings. */
  lemma DefaultCompareOnStrings(p: string, a: Record, b: Record)
    requires Get(a, p).Some? && Get(a, p).value.Str? && Get(b, p).Some? && Get(b, p).value.Str?
    ensures DefaultCompare(p, a, b) == LocaleCompare(FieldString(a, p), FieldString(b, p))
  {
  }

  /** Sorting by a string field with no sort macro: ascending by string
      comparison, or descending with `sortDirection: 'DESC'`. */
  lemma SortByStringField(rs: seq<Record>, q: Query, schema: Schema, filters: map<string, Filter>,
                          macros: map<string, Comparator>, p: string)
    requires Get(q, "sortProperty") == Some(Str(p)) && p != "" && p !in macros
    requires forall r :: r in Filtered(rs, q, schema, filters) ==> Get(r, p).Some? && Get(r, p).value.Str?
    ensures var res := QueryResult(rs, q, schema, filters, macros);
            forall i, j :: 0 <= i < j < |res| ==>
              var c := LocaleCompare(FieldString(res[i], p), FieldString(res[j], p));
              if SortFactor(q) == 1 then c <= 0 else c >= 0
  {
    var selected := Filtered(rs, q, schema, filters);
    var factor := SortFactor(q);
    var cmp := SortComparator(q, macros).value;
    assert forall a, b :: cmp(a, b) == factor * DefaultCompare(p, a, b);
    DefaultCompareTotalPreorder(p, factor, selected);
    assert TotalPreorderOn(cmp, selected);
    QueryResultSpec(rs, q, schema, filters, macros);
    var res := QueryResult(rs, q, schema, filters, macros);
    assert Sorted(res, cmp);
    forall i, j | 0 <= i < j < |res|
      ensures var c := LocaleCompare(FieldString(res[i], p), FieldString(res[j], p)); if factor == 1 then c <= 0 else c >= 0
    {
      assert res[i] in multiset(selected) && res[j] in multiset(selected);
      DefaultCompareOnStrings(p, res[i], res[j]);
      assert factor * DefaultCompare(p, res[i], res[j]) <= 0;
    }
  }

  /** With `sortDirection: 'DESC'` the comparator handed to `records.sort`
      is the ascending one (the same query without `sortDirection`) negated. */
  lemma DescendingNegatesComparator(q: Query, macros: map<string, Comparator>, a: Record, b: Record)
    requires Get(q, "sortDirection") == Some(Str("DESC"))
    ensures SortComparator(q, macros).Some? <==> SortComparator(q - {"sortDirection"}, macros).Some?
    ensures SortComparator(q, macros).Some? ==>
              SortComparator(q, macros).value(a, b) == -SortComparator(q - {"sortDirection"}, macros).value(a, b)
  {
    var asc := q - {"sortDirection"};
    assert Get(asc, "sortProperty") == Get(q, "sortProperty");
    assert SortFactor(asc) == 1;
  }

  /** A list is sorted by the negated comparator exactly when its reverse is
      sorted by the comparator, provided the comparator is antisymmetric on
      the list's elements. */
  lemma {:induction false} NegatedSortedIsReversed(r: seq<Record>, asc: Comparator, desc: Comparator)
    requires forall i, j :: 0 <= i < |r| && 0 <= j < |r| ==> asc(r[i], r[j]) == -asc(r[j], r[i])
    requires forall a, b :: desc(a, b) == -asc(a, b)
    ensures Sorted(r, desc) <==> Sorted(Reversed(r), asc)
  {
    var rev := Reversed(r);
    if Sorted(r, desc) {
      forall i, j | 0 <= i < j < |rev| ensures asc(rev[i], rev[j]) <= 0 {
        assert desc(r[|r| - 1 - j], r[|r| - 1 - i]) <= 0;
        assert asc(r[|r| - 1 - j], r[|r| - 1 - i]) == -asc(r[|r| - 1 - i], r[|r| - 1 - j]);
      }
    }
    if Sorted(rev, asc) {
      forall i, j | 0 <= i < j < |r| ensures desc(r[i], r[j]) <= 0 {
        assert asc(rev[|r| - 1 - j], rev[|r| - 1 - i]) <= 0;
        assert asc(r[j], r[i]) == -asc(r[i], r[j]);
      }
    }
  }

  /** `'DESC'` reverses the ascending order: when the descending comparator
      totally preorders the selected records and the ascending one is
      antisymmetric on them, the result read backwards is sorted by the
      ascending comparator. */
  lemma DescendingQueryIsReversedAscending(rs: seq<Record>, q: Query, schema: Schema, filters: map<string, Filter>,
                                           macros: map<string, Comparator>)
    requires Get(q, "sortDirection") == Some(Str("DESC"))
    requires SortComparator(q, macros).Some?
    requires TotalPreorderOn(SortComparator(q, macros).value, Filtered(rs, q, schema, filters))
    requires SortComparator(q - {"sortDirection"}, macros).Some?
    requires forall a, b :: a in Filtered(rs, q, schema, filters) && b in Filtered(rs, q, schema, filters) ==>
               SortComparator(q - {"sortDirection"}, macros).value(a, b) == -SortComparator(q - {"sortDirection"}, macros).value(b, a)
    ensures Sorted(Reversed(QueryResult(rs, q, schema, filters, macros)), SortComparator(q - {"sortDirection"}, macros).value)
  {
    var desc := SortComparator(q, macros).value;
    var asc := SortComparator(q - {"sortDirection"}, macros).value;
    var selected := Filtered(rs, q, schema, filters);
    forall a, b ensures desc(a, b) == -asc(a, b) {
      DescendingNegatesComparator(q, macros, a, b);
    }
    QueryResultSpec(rs, q, schema, filters, macros);
    var res := QueryResult(rs, q, schema, filters, macros);
    forall i, j | 0 <= i < |res| && 0 <= j < |res| ensures asc(res[i], res[j]) == -asc(res[j], res[i]) {
      assert res[i] in multiset(selected) && res[j] in multiset(selected);
    }
    NegatedSortedIsReversed(res, asc, desc);
  }

  function Reversed(s: seq<Record>): (r: seq<Record>)
    ensures |r| == |s| && forall i :: 0 <= i < |s| ==> r[i] == s[|s| - 1 - i]
  {
    seq(|s|, i requires 0 <= i < |s| => s[|s| - 1 - i])
  }
}
