# ZLinq stateful stages: Distinct, Except, Join and the Lookup

This project is a Dafny model of the stateful operator stages of ZLinq, a LINQ implementation
whose pipeline stages are value-type enumerators. Each stage owns its upstream enumerator and
implements the pull protocol: `TryGetNext` yields the next element or reports exhaustion, and
`Dispose` is forwarded upstream. Three fast-path probes (`TryGetNonEnumeratedCount`, `TryGetSpan`
and `TryCopyTo`) always decline. Auxiliary state is created on the first pull.

- `wrappers.dfy`: `Option` (an `out` parameter plus a `bool`) and `Nullable` (a key that may be
  null).
- `enumeration.dfy`: `Upstream`, an enumerator over an in-memory sequence with a cursor. Every
  stage owns one, which stands for the `TEnumerator source` field.
- `comparers.dfy`: equality comparers and the hash set. A comparer is a map `canon` that sends
  each value to the representative of its class: two values are equal under the comparer exactly
  when their representatives agree. `comparer ?? EqualityComparer<T>.Default` is `OrDefault`. The
  hash set holds one representative per class present. The file also defines the reference notion
  `FirstOccurrences(canon, s, excluded)`: each class of `s` kept once, at its first occurrence,
  leaving out the classes in `excluded`.
- `distinct.dfy`: the `Distinct` stage. It is a class with the lazily created `set` field, and
  it keeps the pulled elements as a ghost field.
- `except.dfy`: the `Except` stage as written. The file also holds `ExceptCorrected`, which is the
  set difference of .NET's `Enumerable.Except`: each element of the source whose class is not in
  `second`, once, in order of first occurrence.
- `join.dfy`: the `Join` state machine over `innerLookup`, `currentGroup`, `currentGroupIndex` and
  `currentOuter`. Its specification is the ghost function `Stream()`: what the stage will still
  produce. `StreamIsNestedLoopJoin` proves that before the first pull `Stream()` equals a
  nested-loop join that needs no lookup. When null-keyed inner elements are left out of the
  lookup, this needs the comparer never to equate null with a key.
- `lookups.dfy`: the multi-map `Lookup` that `Join` builds. Its implementation is not part of this
  model. It is specified by the behaviour that tests/System.Linq.Tests/Tests/ZLinq/ToLookupTests.cs
  asserts of `ToLookup`:
  - keys come in order of first occurrence;
  - each key has its elements in source order;
  - `Count` is the number of distinct keys;
  - a missing key gives an empty group.

  The test helper `AssertMatches` is a method, and it is proved to accept exactly the `Matches`
  predicate.

The model follows the code where it departs from the documented behaviour of LINQ's `Distinct`
(each element once, in order of first occurrence) and `Except` (set difference). `Distinct.TryGetNext` and
`Except.TryGetNext` make one upstream pull per call and return `false` when that one element is
rejected. A consumer stops at the first `false`, so:
- a full enumeration of `Distinct` is the longest duplicate-free prefix of the source, not the
  source with duplicates removed;
- a full enumeration of `Except` is the longest prefix whose elements each remove a class still
  in the set built from `second`. Those are elements that ARE in `second`, which is not the set
  difference.

Both are listed under Findings, each with a corrected stage proved against the intended
property.

The Lookup implementation is not modelled, so whether `Lookup.CreateForJoin` leaves out inner
elements with a null key is the parameter `dropsNullKeys`. The join theorem holds for both
choices. When null-keyed elements are left out, it also needs the comparer never to equate null
with a key.

`ToLookup` is a function of its arguments, so building it twice from the same source gives equal
lookups (ToLookupTests.cs:39-50) without further proof.

## Model

| member | source | states |
|---|---|---|
| Comparers.FirstOccurrencesImage | src/ZLinq/Linq/Distinct.cs:67-70 | filtering by `set.Add` keeps every class of the input that is not excluded, and no other class |
| Comparers.FirstOccurrencesDistinct | src/ZLinq/Linq/Distinct.cs:67-70 | no two elements kept by `set.Add` filtering are equal under the comparer |
| Comparers.FirstOccurrencesSubsequence | src/ZLinq/Linq/Distinct.cs:67-69 | the kept elements are drawn from the input in input order |
| Comparers.FirstOccurrencesSnoc | src/ZLinq/Linq/Distinct.cs:67-70 | one more input element is kept exactly when its class is new and not excluded |
| Comparers.FirstOccurrencesOfPrefix | src/ZLinq/Linq/Distinct.cs:67-70 | filtering a prefix of the input gives a prefix of the filtered input |
| Comparers.FirstOccurrencesOfDistinct | src/ZLinq/Linq/Distinct.cs:67-70 | an input with no two equal elements and no excluded class is left unchanged |
| Comparers.FirstOccurrencesIdempotent | src/ZLinq/Linq/Distinct.cs:67-70 | filtering twice equals filtering once |
| DistinctStage.DuplicateFreePrefix | src/ZLinq/Linq/Distinct.cs:67-74 | the result is a prefix of the source with no two elements equal, and when it is shorter than the source the next element equals one of its own |
| DistinctStage.DuplicateFreePrefixUnique | src/ZLinq/Linq/Distinct.cs:67-74 | any prefix with those three properties is the duplicate-free prefix |
| DistinctStage.DuplicateFreePrefixOfFirstOccurrences | src/ZLinq/Linq/Distinct.cs:67-74 | the stage as written yields a prefix of what first-occurrence filtering yields |
| DistinctStage.StopsAtFirstDuplicate | src/ZLinq/Linq/Distinct.cs:67-74 | on `[a, a, b]` with `a` and `b` unequal, the stage as written yields `[a]` |
| DistinctStage.FirstOccurrencesExample | src/ZLinq/Linq/Distinct.cs:67-70 | on the same input, first-occurrence filtering yields `[a, b]` |
| DistinctStage.Distinct.constructor | src/ZLinq/Linq/Distinct.cs:31-39 | a new stage owns its source and comparer, has no set yet and has pulled nothing |
| DistinctStage.Distinct.TryGetNonEnumeratedCount | src/ZLinq/Linq/Distinct.cs:43-47 | declines, with count 0 |
| DistinctStage.Distinct.TryGetSpan | src/ZLinq/Linq/Distinct.cs:49-53 | declines, with an empty span |
| DistinctStage.Distinct.TryCopyTo | src/ZLinq/Linq/Distinct.cs:55-58 | declines |
| DistinctStage.Distinct.TryGetNext | src/ZLinq/Linq/Distinct.cs:60-75 | creates the set on the first pull, under the supplied or default comparer, and keeps that comparer afterwards; returns nothing when the source is exhausted; otherwise pulls exactly the next element and yields it exactly when its class was not in the set, after which the class is in the set |
| DistinctStage.Distinct.PullAndAdd | src/ZLinq/Linq/Distinct.cs:67 | one upstream pull followed by `set.Add`: the result is true exactly when the class was absent, and the set gains that class |
| DistinctStage.Distinct.TryGetNextRetrying | src/ZLinq/Linq/Distinct.cs:60-75 | corrected body: keeps pulling past duplicates, so it returns nothing only when the source is exhausted, and otherwise yields the next first occurrence |
| DistinctStage.Distinct.Retry | src/ZLinq/Linq/Distinct.cs:67-74 | the retry loop of the corrected body, with the same contract once the set exists |
| DistinctStage.Distinct.Dispose | src/ZLinq/Linq/Distinct.cs:77-80 | forwards to the source's `Dispose` exactly once |
| DistinctStage.ToList | src/ZLinq/Linq/Distinct.cs:60-75 | a full enumeration of the stage as written is the longest duplicate-free prefix of the source |
| DistinctStage.ToListRetrying | src/ZLinq/Linq/Distinct.cs:60-75 | a full enumeration of the corrected stage is the first occurrences of the source, each class once, in source order |
| ExceptStage.RemovingPrefix | src/ZLinq/Linq/Except.cs:64-71 | the result is a prefix of the source with no two elements equal and every element's class in `second`, and the element after it (if any) has no class still in the set |
| ExceptStage.RemovingPrefixUnique | src/ZLinq/Linq/Except.cs:64-71 | any prefix with those properties is the removing prefix |
| ExceptStage.RemovingPrefixBound | src/ZLinq/Linq/Except.cs:61-64 | a full enumeration yields at most as many elements as `second` has classes, and at most as many as the source has |
| ExceptStage.RemovingPrefixExample | src/ZLinq/Linq/Except.cs:64-71 | on source `[a, b, a]` with `second = [a]`, the stage as written yields `[a]` |
| ExceptStage.SetDifferenceExample | src/ZLinq/Linq/Except.cs:57-72 | on the same input the set difference yields `[b]` |
| ExceptStage.Except.constructor | src/ZLinq/Linq/Except.cs:31-39 | a new stage owns its source, `second` and comparer, has no set yet and has yielded nothing |
| ExceptStage.Except.TryGetNonEnumeratedCount | src/ZLinq/Linq/Except.cs:43-47 | declines, with count 0 |
| ExceptStage.Except.TryGetSpan | src/ZLinq/Linq/Except.cs:49-53 | declines, with an empty span |
| ExceptStage.Except.TryCopyTo | src/ZLinq/Linq/Except.cs:55 | declines |
| ExceptStage.Except.TryGetNext | src/ZLinq/Linq/Except.cs:57-72 | the set is filled from all of `second` on the first pull and never rebuilt; returns nothing when the source is exhausted; otherwise pulls exactly the next element and yields it exactly when its class is still in the set, removing that class so the set shrinks by exactly one; a rejected element leaves the set unchanged |
| ExceptStage.Except.PullAndRemove | src/ZLinq/Linq/Except.cs:64 | one upstream pull followed by `set.Remove`: yields exactly when the class was present, and the set loses that class |
| ExceptStage.Except.Dispose | src/ZLinq/Linq/Except.cs:74-77 | forwards to the source's `Dispose` exactly once; `second` is not touched |
| ExceptStage.ToList | src/ZLinq/Linq/Except.cs:57-72 | a full enumeration of the stage as written is the removing prefix of the source against the classes of `second` |
| ExceptStage.ExceptCorrected.constructor | src/ZLinq/Linq/Except.cs:31-39 | a new corrected stage has no set yet and has pulled nothing |
| ExceptStage.ExceptCorrected.TryGetNext | src/ZLinq/Linq/Except.cs:57-72 | corrected body (set seeded from `second`, `Add`-gated, retrying): returns nothing only at the end of the source, and otherwise yields the next element whose class is neither in `second` nor yielded before |
| ExceptStage.ExceptCorrected.PullAndAdd | src/ZLinq/Linq/Except.cs:64 | one pull followed by `set.Add`: the output grows by that element exactly when `Add` succeeds |
| ExceptStage.ToListCorrected | src/ZLinq/Linq/Except.cs:57-72 | a full enumeration of the corrected stage is the set difference: the first occurrences of the source, leaving out the classes of `second` |
| JoinStage.Results | src/ZLinq/Linq/Join.cs:77-81 | one result per group element: `resultSelector(outer, group[i])` at position `i` |
| JoinStage.InnerMatchesAreResults | src/ZLinq/Linq/Join.cs:94-99 | the matches of an outer element among the inner elements are its results over the group of inner elements with an equal key |
| JoinStage.ResultsForIsInnerMatches | src/ZLinq/Linq/Join.cs:89-103 | over the lookup built for the join, an outer element with a null key contributes nothing, and any other contributes exactly one result per inner element with an equal key, in inner order |
| JoinStage.JoinIsNestedLoopJoin | src/ZLinq/Linq/Join.cs:63-107 | the join over the lookup is the nested-loop join: for each outer element with a non-null key, in outer order, every inner element with an equal key, in inner order |
| JoinStage.JoinEmptyLookup | src/ZLinq/Linq/Join.cs:68-71 | an empty lookup joins to nothing |
| JoinStage.Join.constructor | src/ZLinq/Linq/Join.cs:31-43 | a new stage has no lookup, no current group and index 0 |
| JoinStage.Join.TryGetNonEnumeratedCount | src/ZLinq/Linq/Join.cs:47-51 | declines, with count 0 |
| JoinStage.Join.TryGetSpan | src/ZLinq/Linq/Join.cs:53-57 | declines, with an empty span |
| JoinStage.Join.TryCopyTo | src/ZLinq/Linq/Join.cs:59 | declines |
| JoinStage.Join.TryGetNext | src/ZLinq/Linq/Join.cs:61-108 | builds the lookup on the first pull; yields the first element of what the stage will still produce, or nothing exactly when that is empty; with an empty lookup it always returns nothing and pulls nothing; while the current group has elements left, it yields `resultSelector(currentOuter, group[index])`, advances the index by one and does not pull; with a non-empty lookup it returns nothing only when the outer source is exhausted |
| JoinStage.Join.Proceed | src/ZLinq/Linq/Join.cs:68-107 | the same contract once the lookup exists |
| JoinStage.Join.Scan | src/ZLinq/Linq/Join.cs:89-107 | the outer loop: skips outer elements with a null key or no group until one matches and yields its first result, or returns nothing with the outer source exhausted |
| JoinStage.Join.Advance | src/ZLinq/Linq/Join.cs:89-101 | one outer pull: a matching element becomes the current outer element with its group at index 0, any other is skipped, and what the stage will produce is unchanged |
| JoinStage.Join.Iterate | src/ZLinq/Linq/Join.cs:74-87 | the `ITERATE` block: the next result of the current group, or the group cleared when it is done |
| JoinStage.Join.Dispose | src/ZLinq/Linq/Join.cs:110-113 | forwards to the outer source's `Dispose` exactly once |
| JoinStage.StreamIsNestedLoopJoin | src/ZLinq/Linq/Join.cs:61-108 | before the first pull, everything the stage will produce is the nested-loop join of the remaining outer elements with `inner` |
| JoinStage.ToList | src/ZLinq/Linq/Join.cs:61-108 | a full enumeration is the join of the outer source against the lookup |
| Lookups.Find | src/ZLinq/Linq/Join.cs:94 | finds a key whose class equals the probe's class, and finds none exactly when the class is absent |
| Lookups.Lookup.GetGroup | src/ZLinq/Linq/Join.cs:94-95 | returns a group exactly when the lookup contains the key, and that group is the key's elements |
| Lookups.ToLookup | tests/System.Linq.Tests/Tests/ZLinq/ToLookupTests.cs:70-78 | the lookup uses the supplied comparer, or the default one when none is given |
| Lookups.CreateForJoin | src/ZLinq/Linq/Join.cs:65 | the join's lookup uses the supplied comparer, or the default one |
| Lookups.GroupOfNonNullKeyed | src/ZLinq/Linq/Join.cs:65 | leaving out null-keyed inner elements changes no group whose key is not equal to null |
| Lookups.BuildKeys | tests/System.Linq.Tests/Tests/ZLinq/ToLookupTests.cs:97-113 | the keys are the source's keys in order of first occurrence |
| Lookups.BuildKeysDistinct | tests/System.Linq.Tests/Tests/ZLinq/ToLookupTests.cs:97-113 | no two keys are equal under the comparer |
| Lookups.BuildItem | tests/System.Linq.Tests/Tests/ZLinq/ToLookupTests.cs:97-113 | each group is exactly the source's elements with an equal key, in source order |
| Lookups.BuildGroupsNonEmpty | tests/System.Linq.Tests/Tests/ZLinq/ToLookupTests.cs:97-113 | no group is empty |
| Lookups.BuildPermutation | tests/System.Linq.Tests/Tests/ZLinq/ToLookupTests.cs:13-37 | the groups laid end to end hold each source element exactly once |
| Lookups.BuildDistinctKeys | tests/System.Linq.Tests/Tests/ZLinq/ToLookupTests.cs:80-95 | with no two keys equal, the keys and the groups laid end to end keep the source's order |
| Lookups.Lookup.Count | tests/System.Linq.Tests/Tests/ZLinq/ToLookupTests.cs:36 | `Count` is one per key, and in a well-formed lookup it is the number of distinct keys |
| Lookups.Lookup.Contains | tests/System.Linq.Tests/Tests/ZLinq/ToLookupTests.cs:25 | `Contains(key)` holds exactly when the key's class is among the keys |
| Lookups.Lookup.Item | tests/System.Linq.Tests/Tests/ZLinq/ToLookupTests.cs:25-57 | `lookup[key]` is empty for a missing key, is the group `GetGroup` returns for a present key, and in a well-formed lookup is never empty for a present key |
| Lookups.ToLookupValid | tests/System.Linq.Tests/Tests/ZLinq/ToLookupTests.cs:97-113 | the lookup has no two equal keys and no empty group |
| Lookups.ToLookupKeys | tests/System.Linq.Tests/Tests/ZLinq/ToLookupTests.cs:97-113 | the keys are the source's keys in order of first occurrence under the comparer |
| Lookups.ToLookupItem | tests/System.Linq.Tests/Tests/ZLinq/ToLookupTests.cs:97-113 | `lookup[key]` is the elements with an equal key in source order, and empty for a key that does not occur |
| Lookups.ToLookupContains | tests/System.Linq.Tests/Tests/ZLinq/ToLookupTests.cs:52-58 | `Contains(key)` holds exactly when some source element has a key equal to it |
| Lookups.ToLookupCount | tests/System.Linq.Tests/Tests/ZLinq/ToLookupTests.cs:133-149 | `Count` is the number of distinct keys |
| Lookups.ToLookupPermutation | tests/System.Linq.Tests/Tests/ZLinq/ToLookupTests.cs:13-37 | the groups laid end to end are the source's elements, rearranged |
| Lookups.ToLookupEmpty | tests/System.Linq.Tests/Tests/ZLinq/ToLookupTests.cs:52-58 | an empty source gives `Count` 0, `Contains` false and an empty group for any key |
| Lookups.ItemOfOwnKey | tests/System.Linq.Tests/Tests/ZLinq/ToLookupTests.cs:23-27 | a well-formed lookup contains each of its own keys, and each key finds its own group |
| Lookups.ApplyResultSelector | tests/System.Linq.Tests/Tests/ZLinq/ToLookupTests.cs:296-306 | one result per key, in key order, each the selector applied to the key and its group |
| Lookups.ApplyResultSelectorExample | tests/System.Linq.Tests/Tests/ZLinq/ToLookupTests.cs:296-306 | a source of one element of one class followed by two of another gives groups of sizes one and two in key order, and the selector sees each key with its whole group |
| Lookups.AssertMatches | tests/System.Linq.Tests/Tests/ZLinq/ToLookupTests.cs:13-37 | the checker succeeds exactly when every key is present, the keys' groups laid end to end are the elements, and there are as many keys as groupings |
| Lookups.MatchGroup | tests/System.Linq.Tests/Tests/ZLinq/ToLookupTests.cs:27-31 | the inner loop succeeds exactly when the group occurs in the elements at the cursor |
| Lookups.MatchesItself | tests/System.Linq.Tests/Tests/ZLinq/ToLookupTests.cs:13-37 | a well-formed lookup matches its own keys with its groups laid end to end |
| Lookups.ToLookupMatches | tests/System.Linq.Tests/Tests/ZLinq/ToLookupTests.cs:97-131 | the lookup matches the keys in first-occurrence order with, as elements, each key's source elements in source order, key after key (the group-major order of the duplicate-key tests) |
| Lookups.ToLookupMatchesSource | tests/System.Linq.Tests/Tests/ZLinq/ToLookupTests.cs:60-95 | with no two keys equal (a null key among them), the lookup matches the source's own keys and elements in source order |
| Lookups.OneElementCustomComparer | tests/System.Linq.Tests/Tests/ZLinq/ToLookupTests.cs:70-78 | under a comparer that equates the element's key with the probe key, the probe is present and finds that element |
| Lookups.CopyTo | tests/System.Linq.Tests/Tests/ZLinq/ToLookupTests.cs:337-339 | the collection view copies the groupings in enumeration order from the given index and changes nothing else in the array |

## Left out

- The hash set's hashing and `EqualityComparer<T>.Default` are not modelled. A comparer is an
  equivalence relation given by a representative map, and the set is a mathematical set of
  representatives.
- The `Lookup`/`Grouping` implementation and `Lookup.CreateForJoin` are not part of this model.
  The lookup is specified by the behaviour its tests assert. Whether `CreateForJoin` drops
  null-keyed inner elements is the parameter `dropsNullKeys`.
- `GetEnumerator`, `ValueEnumerator<>`, the extension methods that build the stages, the
  `ref struct`/`StructLayout`/`EditorBrowsable` attributes, the `NET9_0_OR_GREATER` conditionals
  and `Unsafe.SkipInit`: plumbing with no behaviour. A `false` return carries `None`; the
  uninitialised `out` value cannot be observed.
- Null-argument checks (ToLookupTests.cs:171-238) live in code that is not part of this model.
- The collection view's `IsReadOnly`, its `NotSupportedException` throws for `Add`, `Remove` and
  `Clear`, and `Contains` on a foreign grouping (ToLookupTests.cs:323-335): interface plumbing.
- `ToArray`/`ToList` over the lookup and the `ApplyResultSelectorForGroup` theory: these go
  through enumeration code that is not part of this model.
- ExceptStage.Except.TryGetNext and JoinStage.Join.TryGetNext: `second` and `inner` are
  `IEnumerable`s that the source enumerates on the first pull. The model fixes their contents when
  the stage is constructed. It therefore does not capture changes to them between construction
  and the first pull, side effects of enumerating them, or the fact that a stage never pulled
  never enumerates them. Only the `None` state of the set and the lookup records the deferral.
- Exceptions thrown by selectors, comparers or the upstream are not modelled. Every selector is
  a total function.
- The upstream is an in-memory sequence. The stages are proved for one consumer that pulls until
  the first `false`; interleaved consumers are not modelled.
- Lookups.ApplyResultSelectorExample: states the shape of the `[1, 2, 2, 3, 3, 3]` test on a
  two-class source of one and two elements, with an arbitrary selector. The three-class integer
  instance and its sums `[1, 4, 9]` are not restated; the general lemmas
  ApplyResultSelector, ToLookupKeys and ToLookupItem cover it.
- Lookups.CopyTo: it does not model .NET's argument exceptions for a null array or a negative
  index; the caller must supply room for every grouping.

## Findings

| source | as written | input that shows it | evidently intended | confidence | as-written member | corrected member |
|---|---|---|---|---|---|---|
| src/ZLinq/Linq/Distinct.cs:67 | one upstream pull per call, and the first duplicate ends the enumeration | source `[1, 1, 2]` yields `[1]` | keep pulling past duplicates: `[1, 2]`, the first occurrences | not executed; proved of the model | DistinctStage.StopsAtFirstDuplicate | DistinctStage.ToListRetrying |
| src/ZLinq/Linq/Except.cs:64 | `Remove`-gated, so it yields elements that are in `second`, each at most once, and the first element not in the set ends the enumeration | source `[2, 1, 2]`, second `[2]` yields `[2]` | the set difference, each class once: `[1]` | not executed; proved of the model | ExceptStage.RemovingPrefixExample | ExceptStage.ToListCorrected |
