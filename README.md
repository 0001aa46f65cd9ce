# Fixture adapter model

A Dafny model of `src/fixture-adapter.js` from billy-data-fixture-adapter. This
adapter stands in for a REST back end during tests. It keeps one in-memory
array of plain records per model type, and it answers the store's
fetch-by-id, query, save, delete, bulk-delete and bulk-commit calls from
those arrays. It mints ids of the form `<root><counter>` for new records.

The model is split into six modules:

- `Values` (`values.dfy`) holds the record values: JSON-like values,
  `undefined` as `None`, JavaScript truthiness, and `===`.
- `Decimal` (`decimal.dfy`) holds the decimal rendering used when a counter is
  concatenated to the root, and its injectivity.
- `Store` (`store.dfy`) holds the value-level specification of one fixture
  list: lookup, removal, merge-or-append, id minting, persist and bulk
  persist. The lemmas on uniqueness, freshness and order are here.
- `QueryEngine` (`query.dfy`) holds the filter and sort of `_didFindByQuery`.
  The per-parameter loop and the per-record loop are methods (`RecordMatches`,
  `FilterRecords`), proved against the `Filtered` function. The sort is
  specified as a permutation that is sorted whenever the comparator is a total
  preorder on the selected records.
- `Adapter` (`adapter.dfy`) holds the objects. `Table` is one fixture array
  with its `idCounter` property. `FixtureAdapter` is the dictionary of arrays.
  Its methods do what the source does step by step. Each is proved to leave
  the dictionary in the state given by the specification functions, through a
  ghost `model` kept in step with the arrays. Every method other than `reset`
  and `setFixtures` keeps each stored array under its key, as the source
  changes arrays in place and never swaps one.
- `Scenarios` (`scenarios.dfy`) restates the test suite's category examples
  as lemmas about the model.

Two points of the adapter's behaviour that are easy to misread:

- A record is merged only when its id is truthy. An object whose id is `0` or
  `''` gets a fresh id and is appended (lines 275 and 289-291).
- Unique ids within a list are an invariant the adapter keeps, not one it
  checks. `setFixtures` stores whatever it is given. The model proves that
  persist, remove, bulk commit, bulk delete and save keep uniqueness when it
  holds beforehand.

## Model

| member | source | states |
|---|---|---|
| Decimal.NatToStringInjective | src/fixture-adapter.js:304 | Distinct counters render to distinct decimal strings. |
| Decimal.PrefixedInjective | src/fixture-adapter.js:304 | `root + a` and `root + b` are equal only when the counters `a` and `b` are equal, so candidate ids never repeat. |
| Store.Touched | src/fixture-adapter.js:19-28 | `fixturesForType` adds the key with an empty list when it is absent; every other entry is unchanged. |
| Store.FindIndex | src/fixture-adapter.js:97-99 | Yields the index of the first record whose id is `===` the target, with no match before it, or none when no record matches. |
| Store.FindOne | src/fixture-adapter.js:93-114 | Succeeds exactly when some record's id is `===` the id, and returns the first such record. Otherwise it fails with status 404 and the message 'The record was not found.'. |
| Store.RemoveFirstSplices | src/fixture-adapter.js:262-270 | Removal drops exactly the first match and keeps all other records in order; without a match the list is unchanged. |
| Store.RemoveFirstShrinks | src/fixture-adapter.js:262-270 | The list shrinks by one exactly when there was a match, and gains nothing. |
| Store.RemoveFirstKeeps | src/fixture-adapter.js:262-270 | A record whose id does not match survives the removal. |
| Store.RemoveFirstKeepsUnique | src/fixture-adapter.js:262-270 | Removal keeps ids unique. |
| Store.RemoveThenNotFound | src/fixture-adapter.js:262-270 | With unique ids, after removing an id, fetching it yields the 404 failure. |
| Store.RemoveAllDeletesExactly | src/fixture-adapter.js:59-64 | After deleting several ids from a list with unique ids, none of them can be found, every record matching none of them is kept, and ids stay unique. |
| Store.Merge | src/fixture-adapter.js:278 | `$.extend({}, item, obj)` has the fields of both; the update's values win and fields only in the stored record are kept. |
| Store.UpsertMergesOrAppends | src/fixture-adapter.js:275-288 | With a match, only that slot changes, to the merge, and the length is kept; without one, the object is appended. |
| Store.UsedRunIsShort | src/fixture-adapter.js:298-308 | A run of consecutive used candidate ids is no longer than the list, so the counter loop ends within \|records\|+1 steps. |
| Store.NextCounter | src/fixture-adapter.js:295-311 | The counter the loop settles on lies in (counter, counter+\|records\|+1]; its candidate is unused and every candidate between is used. |
| Store.NextCounterUnique | src/fixture-adapter.js:298-308 | Any counter with that least-free property is the one the loop settles on. |
| Store.Persisted | src/fixture-adapter.js:272-293 | The persisted object has a truthy id and every field it was given; an object that already had a truthy id comes back unchanged. |
| Store.PersistedLength | src/fixture-adapter.js:275-292 | A truthy id that matches merges in place and keeps the length; any other persist appends exactly one record and keeps the rest. |
| Store.PersistedMintsFreshId | src/fixture-adapter.js:289-291 | Without a truthy id, the object gets `root + counter` for a counter above the stored one and at most \|records\|+1 above it; no existing record has that id. |
| Store.PersistedKeepsUnique | src/fixture-adapter.js:272-293 | Persist keeps ids unique. |
| Store.PersistThenFindOne | src/fixture-adapter.js:272-293 | Fetching the persisted object's id finds a record carrying every field of that object. |
| Store.PersistAllSaved | src/fixture-adapter.js:255-260 | Every object of a bulk commit comes back with a truthy id and its other fields as given. |
| Store.PersistAllKeepsUnique | src/fixture-adapter.js:255-260 | A bulk commit keeps ids unique; a batch of objects that all lack ids grows the list by its size. |
| Store.EmbeddedChildrenPointAtParent | src/fixture-adapter.js:231-237 | Every persisted child has a truthy id and its `belongsToKey + 'Id'` field holds the parent's id. |
| QueryEngine.StripIdSuffix | src/fixture-adapter.js:148 | The result is the name with one trailing `Id` removed, or the name itself when it has none. |
| QueryEngine.FilteredDistributes | src/fixture-adapter.js:134-171 | Filtering distributes over concatenation, so matches keep list order. |
| QueryEngine.FilteredMembers | src/fixture-adapter.js:134-171 | A record is selected exactly when it is in the list and every parameter lets it through. |
| QueryEngine.FilteredRecordsPassEachParam | src/fixture-adapter.js:137-166 | For each selected record: a registered filter did not return `false`; an array parameter contains the record's field; any other value is `===` the field. |
| QueryEngine.IgnoredParamsKeepAll | src/fixture-adapter.js:147-150 | Parameters that are neither filters nor attribute or belongs-to names exclude nothing. |
| QueryEngine.RecordMatches | src/fixture-adapter.js:136-167 | The loop over the parameters, with its `break` and `continue`, yields true exactly when the record matches. |
| QueryEngine.FilterRecords | src/fixture-adapter.js:134-171 | The loop over the list selects exactly the matching records, in order. |
| QueryEngine.LocaleCompare | src/fixture-adapter.js:183 | The string comparison yields -1, 0 or 1, and 0 exactly for equal strings. |
| QueryEngine.LocaleCompareAntisymmetric | src/fixture-adapter.js:183 | Swapping the operands negates the result. |
| QueryEngine.LocaleCompareTransitive | src/fixture-adapter.js:183 | The string order is transitive. |
| QueryEngine.InsertPermutes | src/fixture-adapter.js:175-187 | Inserting adds exactly one occurrence of the element. |
| QueryEngine.SortByPermutes | src/fixture-adapter.js:172-188 | Sorting returns a permutation of the selected records. |
| QueryEngine.InsertSorted | src/fixture-adapter.js:172-188 | Inserting into a sorted list under a total preorder keeps it sorted. |
| QueryEngine.SortBySorts | src/fixture-adapter.js:172-188 | Under a comparator that totally preorders the records, the result is sorted. |
| QueryEngine.QueryResultSpec | src/fixture-adapter.js:127-192 | The query result is a permutation of the matching records. Without a sort property it is exactly them in list order; with one whose comparator is a total preorder, it is sorted. |
| QueryEngine.DefaultCompareAntisymmetric | src/fixture-adapter.js:179-187 | The default comparator is antisymmetric. |
| QueryEngine.DefaultCompareTransitiveOnStrings | src/fixture-adapter.js:182-183 | On string fields the default comparator is transitive, ascending or descending. |
| QueryEngine.DefaultCompareTransitiveOnNumbers | src/fixture-adapter.js:184-186 | On numeric fields the default comparator is transitive, ascending or descending. |
| QueryEngine.DefaultCompareTotalPreorder | src/fixture-adapter.js:179-187 | When all selected records hold strings at the property, or all hold numbers, the default comparator times the factor is a total preorder on them. |
| QueryEngine.SortByStringField | src/fixture-adapter.js:172-188 | Sorting by a string field without a macro orders the result ascending by string comparison, or descending with `'DESC'`. |
| QueryEngine.DescendingNegatesComparator | src/fixture-adapter.js:132-187 | With `sortDirection: 'DESC'`, the comparator given to `records.sort` is the negation of the comparator for the same query without `sortDirection`, for a macro and for the default comparator alike. |
| QueryEngine.NegatedSortedIsReversed | src/fixture-adapter.js:132-187 | A list is sorted by the negated comparator exactly when its reverse is sorted by the comparator, when the comparator is antisymmetric on the list. |
| QueryEngine.DescendingQueryIsReversedAscending | src/fixture-adapter.js:127-192 | With `'DESC'`, the query result read backwards is sorted by the ascending comparator, whenever the descending comparator totally preorders the selected records and the ascending one is antisymmetric on them. |
| Adapter.SavedRecord | src/fixture-adapter.js:217-238 | The saved record has a truthy id and there is one group of children per embed entry. |
| Adapter.PersistInKeepsUnique | src/fixture-adapter.js:255-260 | A bulk commit keeps ids unique in every list of the dictionary. |
| Adapter.SavedRecordKeepsInvariants | src/fixture-adapter.js:217-238 | Saving keeps ids unique in every list; every embedded child comes back with a truthy id and its `belongsToKey + 'Id'` equal to the parent's id. |
| Adapter.EmbedAllKeepsUnique | src/fixture-adapter.js:221-238 | Persisting the embedded children keeps ids unique in every list. |
| Adapter.EmbedAllPointsAtParent | src/fixture-adapter.js:221-238 | Every persisted embedded child has a truthy id and points at the parent. |
| Adapter.RemoveInDeletes | src/fixture-adapter.js:59-64 | Deleting records keeps ids unique in every list, and none of the deleted ids can then be fetched from the type's list. |
| Adapter.Table.AdvanceCounter | src/fixture-adapter.js:298-308 | The loop leaves `idCounter` at the least counter above the old one whose candidate id is unused, returns that candidate, and leaves the records alone. |
| Adapter.Table.MergeOrPush | src/fixture-adapter.js:275-288 | The scan merges into the first record with the same id or appends; the counter is unchanged. |
| Adapter.Table.SpliceOut | src/fixture-adapter.js:263-269 | The scan splices out the first record whose id is `===` the id; the counter is unchanged. |
| Adapter.FixtureAdapter.constructor | src/fixture-adapter.js:9-13 | A new adapter has an empty dictionary. |
| Adapter.FixtureAdapter.Reset | src/fixture-adapter.js:15-17 | Reset forgets every list. |
| Adapter.FixtureAdapter.FixturesForType | src/fixture-adapter.js:19-28 | Returns the array stored for the type, or stores and returns a new empty one. Arrays already stored stay under their keys, so later calls return the same array. |
| Adapter.FixtureAdapter.SetFixtures | src/fixture-adapter.js:30-32 | Stores a new array holding the records, with no counter set; every other type keeps its array and contents, and the replaced array leaves the adapter's footprint. |
| Adapter.FixtureAdapter.IncrementIdInFixtures | src/fixture-adapter.js:295-311 | Returns `root + c` for the next unused counter `c` and leaves the type's counter at `c`; the records are unchanged. |
| Adapter.FixtureAdapter.PersistWithId | src/fixture-adapter.js:275-288 | For a truthy id, only the type's list changes, to the merge-or-append result. |
| Adapter.FixtureAdapter.PersistNew | src/fixture-adapter.js:289-292 | Without a truthy id, the object gets the next unused id and is appended; only the type's list and counter change. |
| Adapter.FixtureAdapter.Persist | src/fixture-adapter.js:272-293 | Only the type's list changes, to what `Store.Persisted` gives; returns the object as persisted. |
| Adapter.FixtureAdapter.Remove | src/fixture-adapter.js:262-270 | Only the type's list changes: its first record with the id is spliced out. |
| Adapter.FixtureAdapter.DidFindOne | src/fixture-adapter.js:93-114 | Returns `Store.FindOne` on the type's list; no list changes, though the type's list may be created empty. |
| Adapter.FixtureAdapter.DidFindByQuery | src/fixture-adapter.js:127-192 | Returns the query result of `QueryEngine.QueryResult` on the type's list; no list changes, though the type's list may be created empty. |
| Adapter.FixtureAdapter.DidDeleteRecords | src/fixture-adapter.js:59-64 | One removal per id, in order; see `Adapter.RemoveInDeletes`. |
| Adapter.FixtureAdapter.DidCommitTransactionBulk | src/fixture-adapter.js:255-260 | One persist per object, in order; returns the objects as persisted. |
| Adapter.FixtureAdapter.PersistChildren | src/fixture-adapter.js:231-237 | Each child gets the parent id under `belongsToKey + 'Id'` and is persisted into the child type's list, in order. |
| Adapter.FixtureAdapter.SaveRecord | src/fixture-adapter.js:217-238 | Persists the record, then the children of each embed entry in order, reaching the state `Adapter.SavedRecord` gives; see `Adapter.SavedRecordKeepsInvariants`. |
| Scenarios.FixturesForTypeIsStable | src/fixture-adapter.js:19-28 | Two calls for the same type return the same array, even with a persist into it and a removal from any type in between. |
| Scenarios.DeleteRecordsEmptiesList | tests/fixture-adapter.js:104-112 | Deleting ids 1 and 2 from Billy and Noah leaves the category list empty. |
| Scenarios.FindOneFindsBilly | tests/fixture-adapter.js:164-173 | Fetching id 1 yields Billy's record. |
| Scenarios.FindOneMissesUnknownId | tests/fixture-adapter.js:175-185 | Fetching id 999 fails with status 404. |
| Scenarios.SaveMintsCategory3 | tests/fixture-adapter.js:187-217 | Next to `category1` and `category2`, a new category gets id `category3` and is appended as the third record. |
| Scenarios.QueryIgnoresUnknownParams | tests/fixture-adapter.js:338-355 | `name: 'Noah'` selects Noah; paging and unknown parameters filter nothing. |
| Scenarios.QueryByList | tests/fixture-adapter.js:357-373 | `luckyNumber: [2, 3]` selects Noah then John. |
| Scenarios.SortByNameDescending | tests/fixture-adapter.js:388-400 | Sorting by name with `'DESC'` puts Noah before Billy. |
| Scenarios.SortByNumberAscending | tests/fixture-adapter.js:402-409 | Sorting by lucky number puts 2 before 77. |
| Scenarios.SortByMacro | tests/fixture-adapter.js:420-427 | The name-length sort macro puts Noah before Billy. |
| Scenarios.QueryByCustomFilter | tests/fixture-adapter.js:438-464 | The `minLuckyNumber` filter keeps Billy for 5 and nobody for 78. |
| Scenarios.BulkAddsNewRecords | tests/fixture-adapter.js:466-477 | Committing two new categories gives four records; they get `category1` and `category2`. |
| Scenarios.BulkUpdatesExistingRecord | tests/fixture-adapter.js:479-490 | Committing id 1 with a new name merges it into Billy's record and keeps two records. |

## Left out

- The delegation to the REST adapter when a mocked request exists (`amock.has`) is left out. It only forwards the call.
- The public wrappers (`findOne`, `findByQuery`, `saveRecord`, `deleteRecords`, `deleteRecord`, `commitTransactionBulk`) and `_simulateRemoteCall` are left out. They only build a URL and schedule the simulated half after a delay. `src/fixture-request.js` is not part of this model.
- Success and error callbacks, the `complete` callback and payload building are left out. The model returns the data the payload would carry, and the 404 failure with its message.
- Adapter.SavedRecord: the children written back into the saved record are not modelled. In the source, `_persist` stores the `data` object itself when it appends (lines 287 and 291), and a shallow `$.extend` copy when it merges (line 278). Either way the stored parent shares the arrays under `data`'s embed fields. The loop at lines 231-236 then writes `belongsToKey + 'Id'` and a minted `id` into every element of those arrays. So in the source the stored parent's embedded children carry those fields (after the embedded save in tests/fixture-adapter.js:246-275, each of the category's `posts` has `id` and `categoryId`). In the model the stored parent keeps its children exactly as given. Also, `Adapter.Embed`'s `children` is an input that is not tied to the content of `data`'s field. The same applies to `Adapter.FixtureAdapter.SaveRecord`.
- `loadRecord`, `unloadRecord` and `_didDeleteRecord` are left out. `loadRecord` is a one-line call of `_persist` on a record the host serializes; `unloadRecord` and `_didDeleteRecord` pass an id to `_remove`, and the latter then reports success.
- The host type system is taken as inputs. `Em.guidFor(type)` becomes the `key` of `Adapter.ModelType`, `_rootForType` its `root`, and the declared attributes and belongs-to names its `schema`. Registered filters and sort macros are functions passed in. In `saveRecord`, resolving each embed name to a child type, `belongsToKey` and child list is an input (`Adapter.Embed`).
- `JSON.parse(JSON.stringify(...))` copies are left out: values are immutable here, so a copy equals its original.
- Object identity in three places is left out:
  - the array given to `setFixtures` (the model stores a new array holding the same records);
  - in-place mutation of the caller's object by `_persist` and of each embedded child (the model returns the object as persisted);
  - arrays and objects as field values, which `===` treats as never equal.
- Numbers are integers: floating point and `Infinity` are not modelled. In the default comparator's `av - bv`, `null` counts as 0 and booleans as 0 or 1. Every other operand, including a missing field, gives NaN, and a NaN result is a tie, which is how `Array.prototype.sort` treats it. JavaScript would instead convert numeric strings and some arrays to numbers; the model treats them as NaN too.
- QueryEngine.LocaleCompare: `localeCompare` is modelled as lexicographic order on character codes, without locale collation.
- QueryEngine.SortBy: the order of ties is fixed by an insertion sort. The source leaves it to the engine's `Array.prototype.sort`.
- A non-string `sortProperty` value is treated as no sort property.
- QueryEngine.SortByStringField: stated only for a string field without a sort macro. For macros and mixed-type fields, only the permutation and the conditional sortedness of `QueryEngine.QueryResultSpec` are proved.
- `Em.get(data, ...)` for custom filters is modelled by the filter function reading the record directly.
