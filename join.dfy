/** The `Join` stage (src/ZLinq/Linq/Join.cs): an inner equi-join of the upstream (outer) sequence
    with `inner`, through a lookup built from `inner` on the first pull. */
module JoinStage {
  import opened Wrappers
  import opened Comparers
  import opened Enumeration
  import opened Lookups

  /** `resultSelector(outer, e)` for each `e` of `group`, in order. */
  function Results<O, I, R>(outer: O, resultSelector: (O, I) -> R, group: seq<I>): (r: seq<R>)
    ensures |r| == |group|
    ensures forall i :: 0 <= i < |group| ==> r[i] == resultSelector(outer, group[i])
    decreases |group|
  {
    if group == [] then [] else [resultSelector(outer, group[0])] + Results(outer, resultSelector, group[1..])
  }

  /** What one outer element contributes: nothing for a null key or a key with no group, and
      otherwise one result per element of its group. */
  function ResultsFor<O, I, K(==), R>(outer: O, lookup: Lookup<Nullable<K>, I>, outerKeySelector: O -> Nullable<K>, resultSelector: (O, I) -> R): seq<R> {
    var key := outerKeySelector(outer);
    if key.Null? then []
    else
      var group := lookup.GetGroup(key);
      if group.None? then [] else Results(outer, resultSelector, group.value)
  }

  /** The join of `outer` against the lookup, outer element by outer element. */
  function JoinOf<O, I, K(==), R>(outer: seq<O>, lookup: Lookup<Nullable<K>, I>, outerKeySelector: O -> Nullable<K>, resultSelector: (O, I) -> R): seq<R>
    decreases |outer|
  {
    if outer == [] then []
    else ResultsFor(outer[0], lookup, outerKeySelector, resultSelector) + JoinOf(outer[1..], lookup, outerKeySelector, resultSelector)
  }

  /** Reference definition, independent of any lookup: for each outer element with a non-null key,
      in outer order, each inner element with an equal key, in inner order. */
  function NestedLoopJoin<O, I, K(==), R>(outer: seq<O>, inner: seq<I>, canon: Nullable<K> -> Nullable<K>, outerKeySelector: O -> Nullable<K>, innerKeySelector: I -> Nullable<K>, resultSelector: (O, I) -> R): seq<R>
    decreases |outer|
  {
    if outer == [] then []
    else
      var o := outer[0];
      (if outerKeySelector(o).Null? then [] else InnerMatches(o, inner, canon, outerKeySelector(o), innerKeySelector, resultSelector))
        + NestedLoopJoin(outer[1..], inner, canon, outerKeySelector, innerKeySelector, resultSelector)
  }

  function InnerMatches<O, I, K(==), R>(o: O, inner: seq<I>, canon: Nullable<K> -> Nullable<K>, key: Nullable<K>, innerKeySelector: I -> Nullable<K>, resultSelector: (O, I) -> R): seq<R>
    decreases |inner|
  {
    if inner == [] then []
    else
      var x := inner[|inner| - 1];
      InnerMatches(o, inner[..|inner| - 1], canon, key, innerKeySelector, resultSelector)
        + if canon(innerKeySelector(x)) == canon(key) then [resultSelector(o, x)] else []
  }

  lemma {:induction false} ResultsSnoc<O, I, R>(outer: O, resultSelector: (O, I) -> R, group: seq<I>, x: I)
    ensures Results(outer, resultSelector, group + [x]) == Results(outer, resultSelector, group) + [resultSelector(outer, x)]
    decreases |group|
  {
    if group != [] {
      assert (group + [x])[1..] == group[1..] + [x];
      ResultsSnoc(outer, resultSelector, group[1..], x);
    } else {
      assert [x][1..] == [];
    }
  }

  /** The inner matches of one outer element are its results over the reference group. */
  lemma {:induction false} InnerMatchesAreResults<O, I, K, R>(o: O, inner: seq<I>, canon: Nullable<K> -> Nullable<K>, key: Nullable<K>, innerKeySelector: I -> Nullable<K>, resultSelector: (O, I) -> R)
    ensures InnerMatches(o, inner, canon, key, innerKeySelector, resultSelector)
            == Results(o, resultSelector, GroupOf(canon, inner, innerKeySelector, Id, key))
    decreases |inner|
  {
    if inner != [] {
      var init, x := inner[..|inner| - 1], inner[|inner| - 1];
      InnerMatchesAreResults(o, init, canon, key, innerKeySelector, resultSelector);
      if canon(innerKeySelector(x)) == canon(key) {
        ResultsSnoc(o, resultSelector, GroupOf(canon, init, innerKeySelector, Id, key), x);
      }
    }
  }

  /** The comparer never equates null with a key. */
  ghost predicate KeepsNullApart<K(!new)>(canon: Nullable<K> -> Nullable<K>) {
    forall key: Nullable<K> :: key.NonNull? ==> canon(key) != canon(Null)
  }

  /** Over the lookup `Join` builds, each outer element contributes exactly its reference matches:
      k inner elements with an equal key give k results. This needs the comparer to keep null
      apart from every key only when null-keyed inner elements are left out of the lookup. */
  lemma ResultsForIsInnerMatches<O, I, K(!new), R>(o: O, inner: seq<I>, outerKeySelector: O -> Nullable<K>, innerKeySelector: I -> Nullable<K>, resultSelector: (O, I) -> R, comparer: Option<Comparer<Nullable<K>>>, dropsNullKeys: bool)
    requires dropsNullKeys ==> KeepsNullApart(OrDefault(comparer).canon)
    ensures var canon := OrDefault(comparer).canon;
            ResultsFor(o, CreateForJoin(inner, innerKeySelector, comparer, dropsNullKeys), outerKeySelector, resultSelector)
            == if outerKeySelector(o).Null? then [] else InnerMatches(o, inner, canon, outerKeySelector(o), innerKeySelector, resultSelector)
  {
    var canon := OrDefault(comparer).canon;
    var key := outerKeySelector(o);
    if key.NonNull? {
      var source := if dropsNullKeys then NonNullKeyed(inner, innerKeySelector) else inner;
      var lookup := CreateForJoin(inner, innerKeySelector, comparer, dropsNullKeys);
      ToLookupItem(source, innerKeySelector, Id, comparer, key);
      if dropsNullKeys {
        GroupOfNonNullKeyed(canon, inner, innerKeySelector, key);
      }
      InnerMatchesAreResults(o, inner, canon, key, innerKeySelector, resultSelector);
      assert lookup.GetGroup(key).None? ==> lookup.Item(key) == [];
    }
  }

  /** A full join over the lookup is the nested-loop join. */
  lemma {:induction false} JoinIsNestedLoopJoin<O, I, K(!new), R>(outer: seq<O>, inner: seq<I>, outerKeySelector: O -> Nullable<K>, innerKeySelector: I -> Nullable<K>, resultSelector: (O, I) -> R, comparer: Option<Comparer<Nullable<K>>>, dropsNullKeys: bool)
    requires dropsNullKeys ==> KeepsNullApart(OrDefault(comparer).canon)
    ensures JoinOf(outer, CreateForJoin(inner, innerKeySelector, comparer, dropsNullKeys), outerKeySelector, resultSelector)
            == NestedLoopJoin(outer, inner, OrDefault(comparer).canon, outerKeySelector, innerKeySelector, resultSelector)
    decreases |outer|
  {
    if outer != [] {
      ResultsForIsInnerMatches(outer[0], inner, outerKeySelector, innerKeySelector, resultSelector, comparer, dropsNullKeys);
      JoinIsNestedLoopJoin(outer[1..], inner, outerKeySelector, innerKeySelector, resultSelector, comparer, dropsNullKeys);
    }
  }

  lemma HeadTail<T>(a: seq<T>, b: seq<T>)
    requires |a| > 0
    ensures (a + b)[0] == a[0] && (a + b)[1..] == a[1..] + b
  {
  }

  lemma AppendHead<T>(a: seq<T>, b: seq<T>)
    requires |b| > 0
    ensures (a + [b[0]]) + b[1..] == a + b
  {
    assert b == [b[0]] + b[1..];
  }

  /** An empty lookup joins to nothing. */
  lemma {:induction false} JoinEmptyLookup<O, I, K, R>(outer: seq<O>, lookup: Lookup<Nullable<K>, I>, outerKeySelector: O -> Nullable<K>, resultSelector: (O, I) -> R)
    requires lookup.Count() == 0
    ensures JoinOf(outer, lookup, outerKeySelector, resultSelector) == []
    decreases |outer|
  {
    if outer != [] {
      assert lookup.Keys() == [];
      JoinEmptyLookup(outer[1..], lookup, outerKeySelector, resultSelector);
    }
  }

  /** `Join<TEnumerator, TOuter, TInner, TKey, TResult>`: owns the outer upstream `source`. The keys
      `TKey` may be null, so keys are `Nullable<K>` and the comparer compares those. */
  class Join<O(0), I, K(==), R> {
    const source: Upstream<O>
    const inner: seq<I>
    const outerKeySelector: O -> Nullable<K>
    const innerKeySelector: I -> Nullable<K>
    const resultSelector: (O, I) -> R
    const comparer: Option<Comparer<Nullable<K>>>
    /** How `Lookup.CreateForJoin` treats null inner keys (see there). */
    const dropsNullKeys: bool

    var innerLookup: Option<Lookup<Nullable<K>, I>>
    var currentGroup: Option<seq<I>>
    var currentGroupIndex: int
    var currentOuter: O

    ghost const start: nat

    /** The lookup the first pull builds. */
    ghost function TheLookup(): Lookup<Nullable<K>, I> {
      CreateForJoin(inner, innerKeySelector, comparer, dropsNullKeys)
    }

    ghost predicate Valid()
      reads this, source
    {
      && source.Valid()
      && start <= source.pos
      && (innerLookup.None? ==> source.pos == start && currentGroup.None?)
      && (innerLookup.Some? ==> innerLookup.value == TheLookup())
      && (currentGroup.Some? ==> 0 <= currentGroupIndex <= |currentGroup.value|)
      && (currentGroup.Some? ==> && outerKeySelector(currentOuter).NonNull?
                                 && TheLookup().GetGroup(outerKeySelector(currentOuter)) == currentGroup)
    }

    /** The results of the current group still to be produced. */
    ghost function Pending(): seq<R>
      reads this`currentGroup, this`currentGroupIndex, this`currentOuter
    {
      if currentGroup.Some? && 0 <= currentGroupIndex <= |currentGroup.value|
      then Results(currentOuter, resultSelector, currentGroup.value[currentGroupIndex..])
      else []
    }

    /** Everything the stage will still produce: the rest of the current group, then the join of
        the outer elements not yet pulled. */
    ghost function Stream(): seq<R>
      reads this`currentGroup, this`currentGroupIndex, this`currentOuter, source
      requires source.Valid()
    {
      Pending() + JoinOf(source.Remaining(), TheLookup(), outerKeySelector, resultSelector)
    }

    constructor (source: Upstream<O>, inner: seq<I>, outerKeySelector: O -> Nullable<K>, innerKeySelector: I -> Nullable<K>,
                 resultSelector: (O, I) -> R, comparer: Option<Comparer<Nullable<K>>>, dropsNullKeys: bool)
      requires source.Valid()
      ensures Valid()
      ensures this.source == source && this.inner == inner && this.outerKeySelector == outerKeySelector
      ensures this.innerKeySelector == innerKeySelector && this.resultSelector == resultSelector
      ensures this.comparer == comparer && this.dropsNullKeys == dropsNullKeys
      ensures innerLookup == None && currentGroup == None && currentGroupIndex == 0 && start == source.pos
    {
      this.source := source;
      this.inner := inner;
      this.outerKeySelector := outerKeySelector;
      this.innerKeySelector := innerKeySelector;
      this.resultSelector := resultSelector;
      this.comparer := comparer;
      this.dropsNullKeys := dropsNullKeys;
      innerLookup := None;
      currentGroup := None;
      currentGroupIndex := 0;
      start := source.pos;
    }

    method TryGetNonEnumeratedCount() returns (ok: bool, count: int)
      ensures !ok && count == 0
    {
      ok, count := false, 0;
    }

    method TryGetSpan() returns (ok: bool, span: seq<R>)
      ensures !ok && span == []
    {
      ok, span := false, [];
    }

    method TryCopyTo(dest: array<R>) returns (ok: bool)
      ensures !ok
    {
      ok := false;
    }

    /** Yields the next element of `Stream()`, or reports that it is empty. */
    method TryGetNext() returns (r: Option<R>)
      requires Valid()
      modifies this, source`pos
      ensures Valid() && innerLookup == Some(TheLookup())
      ensures r.None? <==> old(Stream()) == []
      ensures r.Some? ==> old(Stream()) != [] && r.value == old(Stream())[0] && Stream() == old(Stream())[1..]
      ensures r.None? ==> Stream() == []
      ensures TheLookup().Count() == 0 ==> r.None? && source.pos == old(source.pos)
      ensures old(currentGroup).Some? && old(currentGroupIndex) < |old(currentGroup).value| ==>
                && r == Some(resultSelector(old(currentOuter), old(currentGroup).value[old(currentGroupIndex)]))
                && currentGroup == old(currentGroup) && currentGroupIndex == old(currentGroupIndex) + 1
                && source.pos == old(source.pos)
      ensures TheLookup().Count() > 0 && r.None? ==> source.pos == |source.items|
    {
      if innerLookup.None? {
        innerLookup := Some(CreateForJoin(inner, innerKeySelector, comparer, dropsNullKeys));
      }
      r := Proceed();
    }

    /** `TryGetNext` once the lookup exists. */
    method Proceed() returns (r: Option<R>)
      requires Valid() && innerLookup == Some(TheLookup())
      modifies this`currentGroup, this`currentGroupIndex, this`currentOuter, source`pos
      ensures Valid() && innerLookup == Some(TheLookup())
      ensures r.None? <==> old(Stream()) == []
      ensures r.Some? ==> old(Stream()) != [] && r.value == old(Stream())[0] && Stream() == old(Stream())[1..]
      ensures r.None? ==> Stream() == []
      ensures TheLookup().Count() == 0 ==> r.None? && source.pos == old(source.pos)
      ensures old(currentGroup).Some? && old(currentGroupIndex) < |old(currentGroup).value| ==>
                && r == Some(resultSelector(old(currentOuter), old(currentGroup).value[old(currentGroupIndex)]))
                && currentGroup == old(currentGroup) && currentGroupIndex == old(currentGroupIndex) + 1
                && source.pos == old(source.pos)
      ensures TheLookup().Count() > 0 && r.None? ==> source.pos == |source.items|
    {
      if innerLookup.value.Count() == 0 {
        JoinEmptyLookup(source.Remaining(), TheLookup(), outerKeySelector, resultSelector);
        assert TheLookup().Keys() == [];
        return None;
      }
      ghost var pending := Pending();
      ghost var later := JoinOf(source.Remaining(), TheLookup(), outerKeySelector, resultSelector);
      r := Iterate();
      if r.Some? {
        HeadTail(pending, later);
        return;
      }
      r := Scan();
    }

    /** The `while` loop of `TryGetNext`: pulls outer elements until one has a non-empty group, and
        yields that group's first result. */
    method Scan() returns (r: Option<R>)
      requires Valid() && innerLookup == Some(TheLookup()) && currentGroup.None?
      modifies this`currentGroup, this`currentGroupIndex, this`currentOuter, source`pos
      ensures Valid() && innerLookup == Some(TheLookup())
      ensures r.None? ==> old(Stream()) == [] && Stream() == [] && source.pos == |source.items|
      ensures r.Some? ==> old(Stream()) != [] && r.value == old(Stream())[0] && Stream() == old(Stream())[1..]
    {
      ghost var stream := Stream();
      while true
        invariant Valid() && innerLookup == Some(TheLookup()) && currentGroup.None?
        invariant Stream() == stream
        decreases |source.items| - source.pos
      {
        var pulled := Advance();
        if !pulled {
          return None;
        }
        if currentGroup.Some? {
          ghost var pending := Pending();
          ghost var later := JoinOf(source.Remaining(), TheLookup(), outerKeySelector, resultSelector);
          r := Iterate();
          if r.Some? {
            HeadTail(pending, later);
            return;
          }
        }
      }
    }

    /** One pass of that loop: pulls an outer element and, when its key is non-null and has a
        group, makes that group current. */
    method Advance() returns (pulled: bool)
      requires Valid() && innerLookup == Some(TheLookup()) && currentGroup.None?
      modifies this`currentGroup, this`currentGroupIndex, this`currentOuter, source`pos
      ensures Valid() && innerLookup == Some(TheLookup())
      ensures Stream() == old(Stream())
      ensures !pulled ==> source.pos == old(source.pos) == |source.items| && currentGroup.None?
      ensures pulled ==> source.pos == old(source.pos) + 1
      ensures pulled && currentGroup.Some? ==> currentGroupIndex == 0 && currentOuter == source.items[old(source.pos)]
    {
      ghost var rest := source.Remaining();
      var value := source.TryGetNext();
      if value.None? {
        return false;
      }
      assert rest == [value.value] + source.Remaining();
      assert JoinOf(rest, TheLookup(), outerKeySelector, resultSelector)
          == ResultsFor(value.value, TheLookup(), outerKeySelector, resultSelector)
             + JoinOf(source.Remaining(), TheLookup(), outerKeySelector, resultSelector);
      var key := outerKeySelector(value.value);
      if key.NonNull? {
        var group := innerLookup.value.GetGroup(key);
        if group.Some? {
          currentOuter := value.value;
          currentGroup := group;
          currentGroupIndex := 0;
          assert group.value[0..] == group.value;
        }
      }
      return true;
    }

    /** The `ITERATE` block: the next result of the current group, or, when the group is done,
        clearing it. */
    method Iterate() returns (r: Option<R>)
      requires Valid() && innerLookup == Some(TheLookup())
      modifies this`currentGroup, this`currentGroupIndex
      ensures Valid() && innerLookup == Some(TheLookup())
      ensures r.None? ==> old(Pending()) == [] && currentGroup.None?
      ensures r.Some? ==> old(Pending()) != [] && r.value == old(Pending())[0] && Pending() == old(Pending())[1..]
      ensures old(currentGroup).Some? && old(currentGroupIndex) < |old(currentGroup).value| ==>
                && r == Some(resultSelector(currentOuter, old(currentGroup).value[old(currentGroupIndex)]))
                && currentGroup == old(currentGroup) && currentGroupIndex == old(currentGroupIndex) + 1
    {
      if currentGroup.Some? {
        if currentGroupIndex < |currentGroup.value| {
          var g := currentGroup.value;
          r := Some(resultSelector(currentOuter, g[currentGroupIndex]));
          assert g[currentGroupIndex..][1..] == g[currentGroupIndex + 1..];
          currentGroupIndex := currentGroupIndex + 1;
          return;
        }
        currentGroup := None;
      }
      r := None;
    }

    method Dispose()
      modifies source`disposeCount
      ensures source.disposeCount == old(source.disposeCount) + 1
    {
      source.Dispose();
    }
  }

  /** Before the first pull, everything a `Join` stage will produce is the nested-loop join of its
      remaining outer elements with `inner`. */
  lemma StreamIsNestedLoopJoin<O(0), I, K(!new), R>(j: Join<O, I, K, R>)
    requires j.Valid() && j.innerLookup.None?
    requires j.dropsNullKeys ==> KeepsNullApart(OrDefault(j.comparer).canon)
    ensures j.Stream() == NestedLoopJoin(j.source.Remaining(), j.inner, OrDefault(j.comparer).canon,
                                         j.outerKeySelector, j.innerKeySelector, j.resultSelector)
  {
    JoinIsNestedLoopJoin(j.source.Remaining(), j.inner, j.outerKeySelector, j.innerKeySelector, j.resultSelector, j.comparer, j.dropsNullKeys);
  }

  /** A terminal consumer: pulls a fresh stage until it reports no element. */
  method ToList<O(0), I, K(==), R>(j: Join<O, I, K, R>) returns (out: seq<R>)
    requires j.Valid() && j.innerLookup.None?
    modifies j, j.source`pos
    ensures out == JoinOf(old(j.source.Remaining()), j.TheLookup(), j.outerKeySelector, j.resultSelector)
  {
    ghost var all := j.Stream();
    assert all == JoinOf(old(j.source.Remaining()), j.TheLookup(), j.outerKeySelector, j.resultSelector);
    out := [];
    while true
      invariant j.Valid() && out + j.Stream() == all
      decreases |j.Stream()|
    {
      ghost var stream := j.Stream();
      var r := j.TryGetNext();
      if r.None? {
        assert out + [] == out;
        return;
      }
      AppendHead(out, stream);
      out := out + [r.value];
    }
  }
}
