/** The multi-map `Lookup<TKey, TElement>` that `Join` builds from its inner sequence, specified by
    the behaviour tests/System.Linq.Tests/Tests/ZLinq/ToLookupTests.cs asserts of `ToLookup`: keys in
    order of first occurrence, each with the group of its elements in source order. */
module Lookups {
  import opened Wrappers
  import opened Comparers

  /** `IGrouping<TKey, TElement>`: a key (the first one seen of its class) and its elements. */
  datatype Grouping<K, E> = Grouping(key: K, elements: seq<E>)

  function MapSeq<A, B>(f: A -> B, s: seq<A>): seq<B> {
    seq(|s|, i requires 0 <= i < |s| => f(s[i]))
  }

  lemma MapSeqSnoc<A, B>(f: A -> B, s: seq<A>)
    requires s != []
    ensures MapSeq(f, s) == MapSeq(f, s[..|s| - 1]) + [f(s[|s| - 1])]
  {
  }

  /** The element selector of a lookup whose elements are the source's own elements. */
  function Id<T>(x: T): T {
    x
  }

  function KeysOf<K, E>(gs: seq<Grouping<K, E>>): seq<K> {
    seq(|gs|, i requires 0 <= i < |gs| => gs[i].key)
  }

  function ElementsOf<K, E>(gs: seq<Grouping<K, E>>): seq<seq<E>> {
    seq(|gs|, i requires 0 <= i < |gs| => gs[i].elements)
  }

  /** The groups laid end to end. */
  function Concat<E>(groups: seq<seq<E>>): seq<E>
    decreases |groups|
  {
    if groups == [] then [] else Concat(groups[..|groups| - 1]) + groups[|groups| - 1]
  }

  /** The position of `key`'s class among `keys`; there is none exactly when the class is absent. */
  function Find<K(==)>(canon: K -> K, keys: seq<K>, key: K): (r: Option<nat>)
    ensures r.Some? ==> r.value < |keys| && canon(keys[r.value]) == canon(key)
    ensures r.None? <==> canon(key) !in Image(canon, keys)
    decreases |keys|
  {
    if keys == [] then None
    else
      var init, last := keys[..|keys| - 1], keys[|keys| - 1];
      assert keys == init + [last];
      ImageSnoc(canon, init, last);
      if canon(last) == canon(key) then Some(|keys| - 1)
      else
        var r := Find(canon, init, key);
        assert r.Some? ==> keys[r.value] == init[r.value];
        r
  }

  /** The elements grouped under `key`'s class in `gs`, and none when the class is absent. */
  function ItemOf<K(==), E>(canon: K -> K, gs: seq<Grouping<K, E>>, key: K): seq<E> {
    var i := Find(canon, KeysOf(gs), key);
    if i.Some? then gs[i.value].elements else []
  }

  predicate NonEmptyGroups<K, E>(gs: seq<Grouping<K, E>>) {
    forall i :: 0 <= i < |gs| ==> |gs[i].elements| > 0
  }

  /** A lookup: its comparer and its groupings, in enumeration order. */
  datatype Lookup<!K(==), E> = Lookup(comparer: Comparer<K>, groupings: seq<Grouping<K, E>>) {

    function Keys(): seq<K> {
      KeysOf(groupings)
    }

    /** No two keys equal under the comparer, and no empty group. */
    predicate Valid() {
      && PairwiseDistinct(comparer.canon, Keys())
      && NonEmptyGroups(groupings)
    }

    /** `lookup.Count`: one per key, which in a well-formed lookup is the number of distinct keys. */
    function Count(): (r: nat)
      ensures r == |Keys()|
      ensures Valid() ==> r == |Image(comparer.canon, Keys())|
    {
      assert Valid() ==> |Image(comparer.canon, Keys())| == |Keys()| by {
        if Valid() {
          DistinctImageSize(comparer.canon, Keys());
        }
      }
      |groupings|
    }

    /** `lookup.Contains(key)`: some key is equal to `key` under the comparer. */
    predicate Contains(key: K)
      ensures Contains(key) <==> comparer.canon(key) in Image(comparer.canon, Keys())
    {
      Find(comparer.canon, Keys(), key).Some?
    }

    /** `GetGroup(key)`: the grouping's elements, or null (`None`) when the key has none. */
    function GetGroup(key: K): (r: Option<seq<E>>)
      ensures r.Some? <==> Contains(key)
      ensures r.Some? ==> r.value == ItemOf(comparer.canon, groupings, key)
    {
      var i := Find(comparer.canon, Keys(), key);
      if i.Some? then Some(groupings[i.value].elements) else None
    }

    /** `lookup[key]`: the group, or an empty sequence for a missing key. */
    function Item(key: K): (r: seq<E>)
      ensures !Contains(key) ==> r == []
      ensures Contains(key) ==> GetGroup(key) == Some(r)
      ensures Valid() && Contains(key) ==> r != []
    {
      ItemOf(comparer.canon, groupings, key)
    }
  }

  /** One element added to the groupings under its key. */
  function Insert<K(==), E>(canon: K -> K, gs: seq<Grouping<K, E>>, key: K, e: E): seq<Grouping<K, E>> {
    var i := Find(canon, KeysOf(gs), key);
    if i.Some? then gs[i.value := Grouping(gs[i.value].key, gs[i.value].elements + [e])]
    else gs + [Grouping(key, [e])]
  }

  /** The groupings of `source`, one element at a time, in source order. */
  function Build<S, K(==), E>(canon: K -> K, source: seq<S>, keySelector: S -> K, elementSelector: S -> E): seq<Grouping<K, E>>
    decreases |source|
  {
    if source == [] then []
    else
      var x := source[|source| - 1];
      Insert(canon, Build(canon, source[..|source| - 1], keySelector, elementSelector), keySelector(x), elementSelector(x))
  }

  /** `source.ToLookup(keySelector, elementSelector, comparer)`. */
  function ToLookup<S, K(==), E>(source: seq<S>, keySelector: S -> K, elementSelector: S -> E, comparer: Option<Comparer<K>>): (r: Lookup<K, E>)
    ensures r.comparer == OrDefault(comparer)
  {
    var c := OrDefault(comparer);
    Lookup(c, Build(c.canon, source, keySelector, elementSelector))
  }

  /** `Lookup.CreateForJoin(inner, innerKeySelector, comparer)`. The implementation is not part of
      this model, and whether it leaves out elements with a null key is not known: `dropsNullKeys`
      chooses, and every property below holds for both choices. */
  function CreateForJoin<I, K(==)>(inner: seq<I>, keySelector: I -> Nullable<K>, comparer: Option<Comparer<Nullable<K>>>, dropsNullKeys: bool): (r: Lookup<Nullable<K>, I>)
    ensures r.comparer == OrDefault(comparer)
  {
    ToLookup(if dropsNullKeys then NonNullKeyed(inner, keySelector) else inner, keySelector, Id, comparer)
  }

  /** The elements whose key is not null, in order. */
  function NonNullKeyed<I, K>(inner: seq<I>, keySelector: I -> Nullable<K>): seq<I>
    decreases |inner|
  {
    if inner == [] then []
    else
      var x := inner[|inner| - 1];
      NonNullKeyed(inner[..|inner| - 1], keySelector) + if keySelector(x).Null? then [] else [x]
  }

  /** Leaving out null-keyed elements changes no group whose key is not equal to null. */
  lemma {:induction false} GroupOfNonNullKeyed<I, K>(canon: Nullable<K> -> Nullable<K>, inner: seq<I>, keySelector: I -> Nullable<K>, key: Nullable<K>)
    requires canon(key) != canon(Null)
    ensures GroupOf(canon, NonNullKeyed(inner, keySelector), keySelector, Id, key) == GroupOf(canon, inner, keySelector, Id, key)
    decreases |inner|
  {
    if inner != [] {
      var init, x := inner[..|inner| - 1], inner[|inner| - 1];
      GroupOfNonNullKeyed(canon, init, keySelector, key);
      var kept := NonNullKeyed(init, keySelector);
      if keySelector(x).Null? {
        assert NonNullKeyed(inner, keySelector) == kept;
      } else {
        assert (kept + [x])[..|kept + [x]| - 1] == kept;
      }
    }
  }

  /** Reference definition: the elements of `source` whose key is equal to `key`, in source order. */
  function GroupOf<S, K(==), E>(canon: K -> K, source: seq<S>, keySelector: S -> K, elementSelector: S -> E, key: K): seq<E>
    decreases |source|
  {
    if source == [] then []
    else
      var x := source[|source| - 1];
      GroupOf(canon, source[..|source| - 1], keySelector, elementSelector, key)
        + if canon(keySelector(x)) == canon(key) then [elementSelector(x)] else []
  }

  /** `lookup.ApplyResultSelector(resultSelector)`: one result per key, in key order, each the
      selector applied to the key and the group `lookup[key]`. */
  function ApplyResultSelector<K(==), E, R>(lookup: Lookup<K, E>, resultSelector: (K, seq<E>) -> R): (r: seq<R>)
    ensures |r| == lookup.Count()
    ensures lookup.Valid() ==>
              forall i :: 0 <= i < |r| ==> r[i] == resultSelector(lookup.Keys()[i], lookup.Item(lookup.Keys()[i]))
  {
    assert lookup.Valid() ==>
             forall i :: 0 <= i < |lookup.groupings| ==> lookup.Item(lookup.Keys()[i]) == lookup.groupings[i].elements by {
      if lookup.Valid() {
        forall i | 0 <= i < |lookup.groupings|
          ensures lookup.Item(lookup.Keys()[i]) == lookup.groupings[i].elements
        {
          ItemOfOwnKey(lookup, i);
        }
      }
    }
    seq(|lookup.groupings|, i requires 0 <= i < |lookup.groupings| => resultSelector(lookup.groupings[i].key, lookup.groupings[i].elements))
  }

  // ---------------------------------------------------------------------------------------------
  // Properties of one insertion.

  lemma KeysOfSnoc<K, E>(gs: seq<Grouping<K, E>>, g: Grouping<K, E>)
    ensures KeysOf(gs + [g]) == KeysOf(gs) + [g.key]
    ensures ElementsOf(gs + [g]) == ElementsOf(gs) + [g.elements]
  {
  }

  /** A new key is appended; a known one leaves the keys as they were. */
  lemma KeysInsert<K, E>(canon: K -> K, gs: seq<Grouping<K, E>>, key: K, e: E)
    ensures canon(key) in Image(canon, KeysOf(gs)) ==> KeysOf(Insert(canon, gs, key, e)) == KeysOf(gs)
    ensures canon(key) !in Image(canon, KeysOf(gs)) ==> KeysOf(Insert(canon, gs, key, e)) == KeysOf(gs) + [key]
  {
    var i := Find(canon, KeysOf(gs), key);
    if i.Some? {
      assert KeysOf(Insert(canon, gs, key, e)) == KeysOf(gs);
    } else {
      KeysOfSnoc(gs, Grouping(key, [e]));
    }
  }

  /** Inserting `e` under `key` adds `e` to the end of `key`'s group and changes no other group. */
  lemma ItemInsert<K, E>(canon: K -> K, gs: seq<Grouping<K, E>>, key: K, e: E, probe: K)
    requires PairwiseDistinct(canon, KeysOf(gs))
    ensures ItemOf(canon, Insert(canon, gs, key, e), probe)
            == ItemOf(canon, gs, probe) + if canon(key) == canon(probe) then [e] else []
  {
    var keys := KeysOf(gs);
    var i := Find(canon, keys, key);
    var j := Find(canon, keys, probe);
    var gs' := Insert(canon, gs, key, e);
    if i.Some? {
      assert KeysOf(gs') == keys;
      if j.Some? && j.value != i.value {
        assert canon(keys[i.value]) != canon(keys[j.value]) by {
          if i.value < j.value {
            assert canon(keys[i.value]) != canon(keys[j.value]);
          }
        }
      }
    } else {
      KeysOfSnoc(gs, Grouping(key, [e]));
      assert KeysOf(gs')[..|gs|] == keys;
      if canon(key) == canon(probe) {
        assert Find(canon, KeysOf(gs'), probe) == Some(|gs|);
      } else {
        assert Find(canon, KeysOf(gs'), probe) == j;
        assert j.Some? ==> gs'[j.value] == gs[j.value];
      }
    }
  }

  lemma ConcatAppend<E>(a: seq<seq<E>>, b: seq<seq<E>>)
    ensures Concat(a + b) == Concat(a) + Concat(b)
    decreases |b|
  {
    if b != [] {
      var init, last := b[..|b| - 1], b[|b| - 1];
      assert (a + b)[..|a + b| - 1] == a + init;
      assert (a + b)[|a + b| - 1] == last;
      ConcatAppend(a, init);
      assert Concat(a + b) == Concat(a) + Concat(init) + last;
    } else {
      assert a + b == a;
    }
  }

  /** Adding `e` to one group adds `e` once to the elements laid end to end. */
  lemma {:induction false} ConcatUpdate<E>(groups: seq<seq<E>>, i: nat, e: E)
    requires i < |groups|
    ensures multiset(Concat(groups[i := groups[i] + [e]])) == multiset(Concat(groups)) + multiset{e}
    decreases |groups|
  {
    var n := |groups| - 1;
    var groups' := groups[i := groups[i] + [e]];
    assert groups'[..n] == if i == n then groups[..n] else groups[..n][i := groups[i] + [e]];
    if i < n {
      ConcatUpdate(groups[..n], i, e);
    }
  }

  // ---------------------------------------------------------------------------------------------
  // Properties of the built lookup.

  /** The keys are the source's keys in order of first occurrence. */
  lemma {:induction false} BuildKeys<S, K, E>(canon: K -> K, source: seq<S>, keySelector: S -> K, elementSelector: S -> E)
    ensures KeysOf(Build(canon, source, keySelector, elementSelector)) == FirstOccurrences(canon, MapSeq(keySelector, source), {})
    decreases |source|
  {
    if source != [] {
      var init, x := source[..|source| - 1], source[|source| - 1];
      var ks := MapSeq(keySelector, init);
      BuildKeys(canon, init, keySelector, elementSelector);
      FirstOccurrencesImage(canon, ks, {});
      KeysInsert(canon, Build(canon, init, keySelector, elementSelector), keySelector(x), elementSelector(x));
      MapSeqSnoc(keySelector, source);
      FirstOccurrencesSnoc(canon, ks, keySelector(x), {});
    }
  }

  lemma BuildKeysDistinct<S, K, E>(canon: K -> K, source: seq<S>, keySelector: S -> K, elementSelector: S -> E)
    ensures PairwiseDistinct(canon, KeysOf(Build(canon, source, keySelector, elementSelector)))
  {
    BuildKeys(canon, source, keySelector, elementSelector);
    FirstOccurrencesDistinct(canon, MapSeq(keySelector, source), {});
  }

  /** Each group holds exactly the source's elements with that key, in source order. */
  lemma {:induction false} BuildItem<S, K, E>(canon: K -> K, source: seq<S>, keySelector: S -> K, elementSelector: S -> E, key: K)
    ensures ItemOf(canon, Build(canon, source, keySelector, elementSelector), key) == GroupOf(canon, source, keySelector, elementSelector, key)
    decreases |source|
  {
    if source != [] {
      var init, x := source[..|source| - 1], source[|source| - 1];
      BuildItem(canon, init, keySelector, elementSelector, key);
      BuildKeysDistinct(canon, init, keySelector, elementSelector);
      ItemInsert(canon, Build(canon, init, keySelector, elementSelector), keySelector(x), elementSelector(x), key);
    }
  }

  /** No group is empty. */
  lemma {:induction false} BuildGroupsNonEmpty<S, K, E>(canon: K -> K, source: seq<S>, keySelector: S -> K, elementSelector: S -> E)
    ensures NonEmptyGroups(Build(canon, source, keySelector, elementSelector))
    decreases |source|
  {
    if source != [] {
      var init, x := source[..|source| - 1], source[|source| - 1];
      BuildGroupsNonEmpty(canon, init, keySelector, elementSelector);
      var gs := Build(canon, init, keySelector, elementSelector);
      var gs' := Build(canon, source, keySelector, elementSelector);
      var i := Find(canon, KeysOf(gs), keySelector(x));
      assert gs' == Insert(canon, gs, keySelector(x), elementSelector(x));
      if i.Some? {
        forall j | 0 <= j < |gs'|
          ensures |gs'[j].elements| > 0
        {
          if j == i.value {
            assert gs'[j].elements == gs[j].elements + [elementSelector(x)];
          } else {
            assert gs'[j] == gs[j];
          }
        }
      } else {
        assert gs' == gs + [Grouping(keySelector(x), [elementSelector(x)])];
        forall j | 0 <= j < |gs'|
          ensures |gs'[j].elements| > 0
        {
          if j < |gs| {
            assert gs'[j] == gs[j];
          }
        }
      }
    }
  }

  /** The elements laid end to end in key order are the source's elements, rearranged. */
  lemma {:induction false} BuildPermutation<S, K, E>(canon: K -> K, source: seq<S>, keySelector: S -> K, elementSelector: S -> E)
    ensures multiset(Concat(ElementsOf(Build(canon, source, keySelector, elementSelector)))) == multiset(MapSeq(elementSelector, source))
    decreases |source|
  {
    if source != [] {
      var init, x := source[..|source| - 1], source[|source| - 1];
      BuildPermutation(canon, init, keySelector, elementSelector);
      var gs := Build(canon, init, keySelector, elementSelector);
      var e := elementSelector(x);
      var i := Find(canon, KeysOf(gs), keySelector(x));
      MapSeqSnoc(elementSelector, source);
      if i.Some? {
        assert ElementsOf(Build(canon, source, keySelector, elementSelector)) == ElementsOf(gs)[i.value := ElementsOf(gs)[i.value] + [e]];
        ConcatUpdate(ElementsOf(gs), i.value, e);
      } else {
        KeysOfSnoc(gs, Grouping(keySelector(x), [e]));
        ConcatAppend(ElementsOf(gs), [[e]]);
        assert Concat([[e]]) == [e] by {
          assert [[e]][..0] == [];
        }
      }
    }
  }

  /** With no two keys equal, each element is its own group, and keys and elements keep the
      source's order. */
  lemma {:induction false} BuildDistinctKeys<S, K, E>(canon: K -> K, source: seq<S>, keySelector: S -> K, elementSelector: S -> E)
    requires PairwiseDistinct(canon, MapSeq(keySelector, source))
    ensures KeysOf(Build(canon, source, keySelector, elementSelector)) == MapSeq(keySelector, source)
    ensures Concat(ElementsOf(Build(canon, source, keySelector, elementSelector))) == MapSeq(elementSelector, source)
    decreases |source|
  {
    if source != [] {
      var init, x := source[..|source| - 1], source[|source| - 1];
      var ks := MapSeq(keySelector, source);
      MapSeqSnoc(keySelector, source);
      assert PairwiseDistinct(canon, MapSeq(keySelector, init)) by {
        assert forall i :: 0 <= i < |init| ==> MapSeq(keySelector, init)[i] == ks[i];
      }
      BuildDistinctKeys(canon, init, keySelector, elementSelector);
      var gs := Build(canon, init, keySelector, elementSelector);
      var e := elementSelector(x);
      assert canon(keySelector(x)) !in Image(canon, KeysOf(gs)) by {
        forall i | 0 <= i < |init|
          ensures canon(KeysOf(gs)[i]) != canon(keySelector(x))
        {
          assert KeysOf(gs)[i] == ks[i] && keySelector(x) == ks[|init|];
        }
      }
      KeysInsert(canon, gs, keySelector(x), e);
      assert Find(canon, KeysOf(gs), keySelector(x)).None?;
      assert Build(canon, source, keySelector, elementSelector) == gs + [Grouping(keySelector(x), [e])];
      KeysOfSnoc(gs, Grouping(keySelector(x), [e]));
      ConcatAppend(ElementsOf(gs), [[e]]);
      assert Concat([[e]]) == [e] by {
        assert [[e]][..0] == [];
      }
      MapSeqSnoc(elementSelector, source);
    }
  }

  /** `ToLookup` builds a well-formed lookup. */
  lemma ToLookupValid<S, K, E>(source: seq<S>, keySelector: S -> K, elementSelector: S -> E, comparer: Option<Comparer<K>>)
    ensures ToLookup(source, keySelector, elementSelector, comparer).Valid()
  {
    var c := OrDefault(comparer);
    BuildKeysDistinct(c.canon, source, keySelector, elementSelector);
    BuildGroupsNonEmpty(c.canon, source, keySelector, elementSelector);
  }

  /** Keys in order of first occurrence under the comparer. */
  lemma ToLookupKeys<S, K, E>(source: seq<S>, keySelector: S -> K, elementSelector: S -> E, comparer: Option<Comparer<K>>)
    ensures ToLookup(source, keySelector, elementSelector, comparer).Keys()
            == FirstOccurrences(OrDefault(comparer).canon, MapSeq(keySelector, source), {})
  {
    BuildKeys(OrDefault(comparer).canon, source, keySelector, elementSelector);
  }

  /** `lookup[key]` is the elements with that key in source order, and empty for a key that does
      not occur. */
  lemma ToLookupItem<S, K, E>(source: seq<S>, keySelector: S -> K, elementSelector: S -> E, comparer: Option<Comparer<K>>, key: K)
    ensures ToLookup(source, keySelector, elementSelector, comparer).Item(key)
            == GroupOf(OrDefault(comparer).canon, source, keySelector, elementSelector, key)
  {
    BuildItem(OrDefault(comparer).canon, source, keySelector, elementSelector, key);
  }

  /** `Contains(key)` holds exactly when some source element has a key equal to `key`. */
  lemma ToLookupContains<S, K, E>(source: seq<S>, keySelector: S -> K, elementSelector: S -> E, comparer: Option<Comparer<K>>, key: K)
    ensures ToLookup(source, keySelector, elementSelector, comparer).Contains(key)
            <==> OrDefault(comparer).canon(key) in Image(OrDefault(comparer).canon, MapSeq(keySelector, source))
  {
    var canon := OrDefault(comparer).canon;
    BuildKeys(canon, source, keySelector, elementSelector);
    FirstOccurrencesImage(canon, MapSeq(keySelector, source), {});
  }

  /** `Count` is the number of distinct keys. */
  lemma ToLookupCount<S, K, E>(source: seq<S>, keySelector: S -> K, elementSelector: S -> E, comparer: Option<Comparer<K>>)
    ensures ToLookup(source, keySelector, elementSelector, comparer).Count()
            == |Image(OrDefault(comparer).canon, MapSeq(keySelector, source))|
  {
    var canon := OrDefault(comparer).canon;
    var ks := MapSeq(keySelector, source);
    BuildKeys(canon, source, keySelector, elementSelector);
    FirstOccurrencesImage(canon, ks, {});
    FirstOccurrencesDistinct(canon, ks, {});
    DistinctImageSize(canon, FirstOccurrences(canon, ks, {}));
  }

  /** The groups laid end to end hold every source element once. */
  lemma ToLookupPermutation<S, K, E>(source: seq<S>, keySelector: S -> K, elementSelector: S -> E, comparer: Option<Comparer<K>>)
    ensures multiset(Concat(ElementsOf(ToLookup(source, keySelector, elementSelector, comparer).groupings)))
            == multiset(MapSeq(elementSelector, source))
  {
    BuildPermutation(OrDefault(comparer).canon, source, keySelector, elementSelector);
  }

  /** An empty source gives an empty lookup: no keys, `Contains` false, every group empty. */
  lemma ToLookupEmpty<S, K, E>(keySelector: S -> K, elementSelector: S -> E, comparer: Option<Comparer<K>>, key: K)
    ensures var lookup := ToLookup([], keySelector, elementSelector, comparer);
            lookup.Count() == 0 && !lookup.Contains(key) && lookup.Item(key) == []
  {
  }

  /** A lookup's own keys find their own groups. */
  lemma ItemOfOwnKey<K, E>(lookup: Lookup<K, E>, i: nat)
    requires lookup.Valid() && i < |lookup.groupings|
    ensures lookup.Contains(lookup.Keys()[i])
    ensures lookup.Item(lookup.Keys()[i]) == lookup.groupings[i].elements
  {
  }

  lemma BuildSnoc<S, K, E>(canon: K -> K, source: seq<S>, x: S, keySelector: S -> K, elementSelector: S -> E)
    ensures Build(canon, source + [x], keySelector, elementSelector)
            == Insert(canon, Build(canon, source, keySelector, elementSelector), keySelector(x), elementSelector(x))
  {
    assert (source + [x])[..|source|] == source;
  }

  /** A source with one and then two elements under two different keys, `[a, b, b]` keyed by
      itself (the shape of `[1, 2, 2, 3, 3, 3].ToLookup(i => i)`): two groupings in key order, of
      sizes one and two, so `ApplyResultSelector` sees each key with its whole group. */
  lemma ApplyResultSelectorExample<T, R>(canon: T -> T, a: T, b: T, resultSelector: (T, seq<T>) -> R)
    requires canon(a) != canon(b)
    ensures var lookup := ToLookup([a, b, b], Id, Id, Some(Comparer(canon)));
            && lookup.groupings == [Grouping(a, [a]), Grouping(b, [b, b])]
            && ApplyResultSelector(lookup, resultSelector) == [resultSelector(a, [a]), resultSelector(b, [b, b])]
  {
    var none: seq<Grouping<T, T>> := [];
    var g1 := [Grouping(a, [a])];
    var g2 := [Grouping(a, [a]), Grouping(b, [b])];
    var g3 := [Grouping(a, [a]), Grouping(b, [b, b])];
    assert Build(canon, [a], Id, Id) == g1 by {
      BuildSnoc(canon, [], a, Id, Id);
      assert [] + [a] == [a] && KeysOf(none) == [];
    }
    assert Build(canon, [a, b], Id, Id) == g2 by {
      BuildSnoc(canon, [a], b, Id, Id);
      assert [a] + [b] == [a, b] && KeysOf(g1) == [a] && Find(canon, [a], b) == None;
    }
    assert Build(canon, [a, b, b], Id, Id) == g3 by {
      BuildSnoc(canon, [a, b], b, Id, Id);
      assert [a, b] + [b] == [a, b, b] && KeysOf(g2) == [a, b] && Find(canon, [a, b], b) == Some(1);
      assert [b] + [b] == [b, b] && g2[1 := Grouping(b, [b, b])] == g3;
    }
  }

  // ---------------------------------------------------------------------------------------------
  // The test helper `AssertMatches` and the collection view.

  /** The groups of `keys`, in the order of `keys`. */
  function ItemsOf<K(==), E>(lookup: Lookup<K, E>, keys: seq<K>): seq<seq<E>> {
    seq(|keys|, i requires 0 <= i < |keys| => lookup.Item(keys[i]))
  }

  /** What `AssertMatches(keys, elements, lookup)` accepts: every key is present, the groups of the
      keys laid end to end are `elements`, and there are as many keys as groupings. */
  predicate Matches<K(==), E(==)>(keys: seq<K>, elements: seq<E>, lookup: Lookup<K, E>) {
    && (forall i :: 0 <= i < |keys| ==> lookup.Contains(keys[i]))
    && Concat(ItemsOf(lookup, keys)) == elements
    && |keys| == lookup.Count()
  }

  lemma ConcatSplit<E>(groups: seq<seq<E>>, k: nat)
    requires k <= |groups|
    ensures groups == groups[..k] + groups[k..]
  {
  }

  lemma ConcatPrefix<E>(groups: seq<seq<E>>, n: nat)
    requires n < |groups|
    ensures Concat(groups[..n + 1]) == Concat(groups[..n]) + groups[n]
    ensures Concat(groups) == Concat(groups[..n + 1]) + Concat(groups[n + 1..])
  {
    var front, back := groups[..n + 1], groups[n + 1..];
    assert front[..|front| - 1] == groups[..n] && front[|front| - 1] == groups[n];
    assert Concat(front) == Concat(front[..|front| - 1]) + front[|front| - 1];
    assert groups == front + back by {
      ConcatSplit(groups, n + 1);
    }
    ConcatAppend(front, back);
  }

  /** The checker: walks `keys`, and for each key its group against a cursor into `elements`;
      `ok` is false where an assertion of the test helper would fail. */
  method AssertMatches<K(==), E(==)>(keys: seq<K>, elements: seq<E>, lookup: Lookup<K, E>) returns (ok: bool)
    ensures ok <==> Matches(keys, elements, lookup)
  {
    ghost var groups := ItemsOf(lookup, keys);
    var num := 0;
    var cursor := 0;
    while num < |keys|
      invariant 0 <= num <= |keys|
      invariant forall i :: 0 <= i < num ==> lookup.Contains(keys[i])
      invariant cursor == |Concat(groups[..num])| <= |elements|
      invariant elements[..cursor] == Concat(groups[..num])
    {
      if !lookup.Contains(keys[num]) {
        return false;
      }
      var group := lookup.Item(keys[num]);
      ConcatPrefix(groups, num);
      var matched := MatchGroup(group, elements, cursor);
      if !matched {
        SliceOfConcat(Concat(groups[..num]), group, Concat(groups[num + 1..]));
        return false;
      }
      assert elements[..cursor + |group|] == elements[..cursor] + elements[cursor..cursor + |group|];
      assert forall i :: 0 <= i <= num ==> lookup.Contains(keys[i]);
      cursor := cursor + |group|;
      num := num + 1;
    }
    assert groups[..num] == groups;
    if cursor < |elements| {
      return false;
    }
    assert elements[..cursor] == elements;
    return num == lookup.Count();
  }

  lemma SliceOfConcat<E>(p: seq<E>, g: seq<E>, r: seq<E>)
    ensures |p + g + r| >= |p| + |g| && (p + g + r)[|p|..|p| + |g|] == g
  {
  }

  /** The inner `foreach`: the group's elements, one by one, against `elements` from `start` on. */
  method MatchGroup<E(==)>(group: seq<E>, elements: seq<E>, start: nat) returns (ok: bool)
    requires start <= |elements|
    ensures ok <==> start + |group| <= |elements| && elements[start..start + |group|] == group
  {
    var j := 0;
    while j < |group|
      invariant 0 <= j <= |group| && start + j <= |elements|
      invariant elements[start..start + j] == group[..j]
    {
      if start + j == |elements| || elements[start + j] != group[j] {
        assert start + |group| <= |elements| ==> elements[start..start + |group|][j] == elements[start + j];
        return false;
      }
      assert elements[start..start + j + 1] == elements[start..start + j] + [elements[start + j]];
      PrefixSnoc(group, j);
      j := j + 1;
    }
    assert group[..j] == group;
    return true;
  }

  /** A well-formed lookup matches its own keys and their groups laid end to end. */
  lemma MatchesItself<K, E>(lookup: Lookup<K, E>)
    requires lookup.Valid()
    ensures Matches(lookup.Keys(), Concat(ElementsOf(lookup.groupings)), lookup)
  {
    forall i | 0 <= i < |lookup.groupings|
      ensures lookup.Contains(lookup.Keys()[i]) && ItemsOf(lookup, lookup.Keys())[i] == ElementsOf(lookup.groupings)[i]
    {
      ItemOfOwnKey(lookup, i);
    }
    assert ItemsOf(lookup, lookup.Keys()) == ElementsOf(lookup.groupings);
  }

  /** The reference group of each of `keys`, in the order of `keys`. */
  function GroupsOf<S, K(==), E>(canon: K -> K, source: seq<S>, keySelector: S -> K, elementSelector: S -> E, keys: seq<K>): seq<seq<E>> {
    seq(|keys|, i requires 0 <= i < |keys| => GroupOf(canon, source, keySelector, elementSelector, keys[i]))
  }

  /** `AssertMatches(keys, elements, source.ToLookup(...))` holds for the keys in order of first
      occurrence and, as `elements`, each key's source elements in source order, key after key: the
      group-major order of the duplicate-key tests. */
  lemma ToLookupMatches<S, K, E>(source: seq<S>, keySelector: S -> K, elementSelector: S -> E, comparer: Option<Comparer<K>>)
    ensures var canon := OrDefault(comparer).canon;
            var keys := FirstOccurrences(canon, MapSeq(keySelector, source), {});
            Matches(keys, Concat(GroupsOf(canon, source, keySelector, elementSelector, keys)),
                    ToLookup(source, keySelector, elementSelector, comparer))
  {
    var canon := OrDefault(comparer).canon;
    var keys := FirstOccurrences(canon, MapSeq(keySelector, source), {});
    var lookup := ToLookup(source, keySelector, elementSelector, comparer);
    ToLookupValid(source, keySelector, elementSelector, comparer);
    ToLookupKeys(source, keySelector, elementSelector, comparer);
    MatchesItself(lookup);
    forall i | 0 <= i < |keys|
      ensures ElementsOf(lookup.groupings)[i] == GroupsOf(canon, source, keySelector, elementSelector, keys)[i]
    {
      ItemOfOwnKey(lookup, i);
      ToLookupItem(source, keySelector, elementSelector, comparer, keys[i]);
    }
    assert ElementsOf(lookup.groupings) == GroupsOf(canon, source, keySelector, elementSelector, keys);
  }

  /** With no two keys equal, `AssertMatches(keys, elements, source.ToLookup(...))` holds for the
      source's own keys and elements, as in the unique-key tests. */
  lemma ToLookupMatchesSource<S, K, E>(source: seq<S>, keySelector: S -> K, elementSelector: S -> E, comparer: Option<Comparer<K>>)
    requires PairwiseDistinct(OrDefault(comparer).canon, MapSeq(keySelector, source))
    ensures Matches(MapSeq(keySelector, source), MapSeq(elementSelector, source), ToLookup(source, keySelector, elementSelector, comparer))
  {
    BuildDistinctKeys(OrDefault(comparer).canon, source, keySelector, elementSelector);
    ToLookupValid(source, keySelector, elementSelector, comparer);
    MatchesItself(ToLookup(source, keySelector, elementSelector, comparer));
  }

  /** `collection.CopyTo(items, index)`: the groupings, in enumeration order, from `index` on. */
  method CopyTo<K(==), E>(lookup: Lookup<K, E>, dest: array<Grouping<K, E>>, index: nat)
    requires index + lookup.Count() <= dest.Length
    modifies dest
    ensures dest[index..index + lookup.Count()] == lookup.groupings
    ensures dest[..index] == old(dest[..index])
    ensures dest[index + lookup.Count()..] == old(dest[index + lookup.Count()..])
  {
    var i := 0;
    while i < |lookup.groupings|
      invariant 0 <= i <= |lookup.groupings|
      invariant dest[index..index + i] == lookup.groupings[..i]
      invariant dest[..index] == old(dest[..index])
      invariant dest[index + lookup.Count()..] == old(dest[index + lookup.Count()..])
    {
      dest[index + i] := lookup.groupings[i];
      i := i + 1;
    }
  }

  /** A one-element source under a comparer that equates its key with `key` (an anagram comparer,
      with "risCh" looked up as "Chris"): `AssertMatches([key], [element], lookup)` holds. */
  lemma OneElementCustomComparer<S, K, E>(s: S, keySelector: S -> K, elementSelector: S -> E, comparer: Comparer<K>, key: K)
    requires comparer.canon(keySelector(s)) == comparer.canon(key)
    ensures var lookup := ToLookup([s], keySelector, elementSelector, Some(comparer));
            lookup.Count() == 1 && lookup.Contains(key) && lookup.Item(key) == [elementSelector(s)]
            && Matches([key], [elementSelector(s)], lookup)
  {
    var c, k, e := comparer.canon, keySelector(s), elementSelector(s);
    assert [s][..0] == [];
    var lookup := ToLookup([s], keySelector, elementSelector, Some(comparer));
    var none: seq<Grouping<K, E>> := [];
    assert Build(c, [s][..0], keySelector, elementSelector) == none;
    assert KeysOf(none) == [] && Find(c, KeysOf(none), k) == None;
    assert lookup.groupings == [Grouping(k, [e])];
    assert lookup.Keys() == [k] && [k][..0] == [];
    assert Find(c, [k], key) == Some(0);
    assert ItemsOf(lookup, [key]) == [[e]];
    assert [[e]][..0] == [];
  }
}
