/** The `Distinct` stage (src/ZLinq/Linq/Distinct.cs). */
module DistinctStage {
  import opened Wrappers
  import opened Comparers
  import opened Enumeration

  /** The longest prefix of `s` in which no two elements are equal under the comparer. */
  function DuplicateFreePrefix<T(==)>(canon: T -> T, s: seq<T>): (r: seq<T>)
    ensures |r| <= |s| && r == s[..|r|]
    ensures PairwiseDistinct(canon, r)
    ensures |r| < |s| ==> canon(s[|r|]) in Image(canon, r)
    decreases |s|
  {
    if s == [] then []
    else
      var init, x := s[..|s| - 1], s[|s| - 1];
      var p := DuplicateFreePrefix(canon, init);
      if p == init && canon(x) !in Image(canon, init) then
        assert s == init + [x];
        assert forall i :: 0 <= i < |init| ==> init[i] in init;
        s
      else
        assert |p| == |init| ==> p == init;
        p
  }

  /** The three properties above pin the prefix down: any prefix of `s` that has no two equal
      elements and is either all of `s` or followed by an element equal to one of its own is the
      duplicate-free prefix. */
  lemma DuplicateFreePrefixUnique<T>(canon: T -> T, s: seq<T>, p: seq<T>)
    requires |p| <= |s| && p == s[..|p|]
    requires PairwiseDistinct(canon, p)
    requires |p| == |s| || canon(s[|p|]) in Image(canon, p)
    ensures p == DuplicateFreePrefix(canon, s)
  {
  }

  /** The duplicate-free prefix is the start of the first-occurrence filtering: the stage as written
      yields the right elements but may stop before the last of them. */
  lemma DuplicateFreePrefixOfFirstOccurrences<T>(canon: T -> T, s: seq<T>)
    ensures var r := DuplicateFreePrefix(canon, s);
            |r| <= |FirstOccurrences(canon, s, {})| && r == FirstOccurrences(canon, s, {})[..|r|]
  {
    var r := DuplicateFreePrefix(canon, s);
    FirstOccurrencesOfDistinct(canon, r, {});
    FirstOccurrencesOfPrefix(canon, s, {}, |r|);
  }

  /** On `[a, a, b]` with two different classes (for instance `[1, 1, 2]`) the stage as written
      yields `[a]`... */
  lemma StopsAtFirstDuplicate<T>(canon: T -> T, a: T, b: T)
    requires canon(a) != canon(b)
    ensures DuplicateFreePrefix(canon, [a, a, b]) == [a]
  {
    assert [a, a, b][..1] == [a];
    assert a in [a];
    DuplicateFreePrefixUnique(canon, [a, a, b], [a]);
  }

  /** ... where first-occurrence filtering yields `[a, b]`. */
  lemma FirstOccurrencesExample<T>(canon: T -> T, a: T, b: T)
    requires canon(a) != canon(b)
    ensures FirstOccurrences(canon, [a, a, b], {}) == [a, b]
  {
    var s1, s2 := [a], [a, a];
    assert FirstOccurrences(canon, s1, {}) == [a] by {
      assert [] + [a] == s1;
      FirstOccurrencesSnoc(canon, [], a, {});
    }
    assert FirstOccurrences(canon, s2, {}) == [a] && Image(canon, s2) == {canon(a)} by {
      assert s1 + [a] == s2;
      ImageSnoc(canon, s1, a);
      FirstOccurrencesSnoc(canon, s1, a, {});
    }
    assert s2 + [b] == [a, a, b];
    FirstOccurrencesSnoc(canon, s2, b, {});
  }

  /** `Distinct<TEnumerator, TSource>`: owns its upstream `source`; the hash set is `None` until
      the first pull. */
  class Distinct<T(==)> {
    const source: Upstream<T>
    const comparer: Option<Comparer<T>>
    var hashSet: Option<HashSet<T>>
    /** Where the upstream cursor stood when the stage was built. */
    ghost const start: nat
    /** What this stage has pulled from its upstream so far. */
    ghost var Pulled: seq<T>

    /** The comparer the set uses. */
    ghost function Canon(): T -> T {
      OrDefault(comparer).canon
    }

    /** What first-occurrence filtering makes of what has been pulled. */
    ghost function Firsts(): seq<T>
      reads this
    {
      FirstOccurrences(Canon(), Pulled, {})
    }

    /** The classes in the set (none before the set exists). */
    ghost function Members(): set<T>
      reads this
    {
      if hashSet.Some? then hashSet.value.members else {}
    }

    ghost predicate Valid()
      reads this, source
    {
      && source.Valid()
      && source.pos == start + |Pulled|
      && source.items[start..source.pos] == Pulled
      && (hashSet.None? ==> Pulled == [])
      && (hashSet.Some? ==> hashSet.value.comparer == OrDefault(comparer))
      && (hashSet.Some? ==> hashSet.value.members == Image(Canon(), Pulled))
    }

    constructor (source: Upstream<T>, comparer: Option<Comparer<T>>)
      requires source.Valid()
      ensures Valid()
      ensures this.source == source && this.comparer == comparer
      ensures hashSet == None && start == source.pos && Pulled == []
    {
      this.source := source;
      this.comparer := comparer;
      hashSet := None;
      start := source.pos;
      Pulled := [];
    }

    method TryGetNonEnumeratedCount() returns (ok: bool, count: int)
      ensures !ok && count == 0
    {
      ok, count := false, 0;
    }

    method TryGetSpan() returns (ok: bool, span: seq<T>)
      ensures !ok && span == []
    {
      ok, span := false, [];
    }

    method TryCopyTo(dest: array<T>) returns (ok: bool)
      ensures !ok
    {
      ok := false;
    }

    /** As written: one upstream pull per call, and `false` both on exhaustion and on a duplicate. */
    method TryGetNext() returns (r: Option<T>)
      requires Valid()
      modifies this`hashSet, this`Pulled, source`pos
      ensures Valid() && hashSet.Some?
      ensures old(hashSet).Some? ==> hashSet.value.comparer == old(hashSet).value.comparer
      ensures old(source.pos) == |source.items| ==> r == None && Pulled == old(Pulled)
      ensures old(source.pos) < |source.items| ==>
                var x := source.items[old(source.pos)];
                && Pulled == old(Pulled) + [x]
                && (r.Some? <==> Canon()(x) !in old(Members()))
                && (r.Some? ==> r.value == x)
      ensures r.Some? ==> !(old(hashSet).Some? && old(hashSet).value.Contains(r.value)) && hashSet.value.Contains(r.value)
      ensures r.Some? ==> Members() == old(Members()) + {Canon()(r.value)}
      ensures Firsts() == old(Firsts()) + if r.Some? then [r.value] else []
    {
      if hashSet.None? {
        hashSet := Some(EmptyHashSet(OrDefault(comparer)));
      }
      var value, added := PullAndAdd();
      if added {
        return value;
      }
      return None;
    }

    /** The body LINQ's documented `Distinct` calls for (each element once, in order of first
        occurrence): keep pulling past duplicates until a new element or the end of the upstream. */
    method TryGetNextRetrying() returns (r: Option<T>)
      requires Valid()
      modifies this`hashSet, this`Pulled, source`pos
      ensures Valid() && hashSet.Some?
      ensures r.None? ==> source.pos == |source.items|
      ensures r.Some? ==> |old(Pulled)| < |Pulled| && r.value == Pulled[|Pulled| - 1]
      ensures Firsts() == old(Firsts()) + if r.Some? then [r.value] else []
    {
      if hashSet.None? {
        hashSet := Some(EmptyHashSet(OrDefault(comparer)));
      }
      r := Retry();
    }

    /** The retry loop of the corrected body, once the set exists. */
    method Retry() returns (r: Option<T>)
      requires Valid() && hashSet.Some?
      modifies this`hashSet, this`Pulled, source`pos
      ensures Valid() && hashSet.Some?
      ensures r.None? ==> source.pos == |source.items|
      ensures r.Some? ==> |old(Pulled)| < |Pulled| && r.value == Pulled[|Pulled| - 1]
      ensures Firsts() == old(Firsts()) + if r.Some? then [r.value] else []
    {
      ghost var firsts0 := Firsts();
      while true
        invariant Valid() && hashSet.Some?
        invariant |old(Pulled)| <= |Pulled|
        invariant Firsts() == firsts0
        decreases |source.items| - source.pos
      {
        var value, added := PullAndAdd();
        if value.None? {
          return None;
        }
        if added {
          return value;
        }
      }
    }

    /** `source.TryGetNext(out var value)` and, when that succeeds, `set.Add(value)`. */
    method PullAndAdd() returns (value: Option<T>, added: bool)
      requires Valid() && hashSet.Some?
      modifies this`hashSet, this`Pulled, source`pos
      ensures Valid() && hashSet.Some?
      ensures value.None? ==> old(source.pos) == |source.items| && Pulled == old(Pulled) && !added
      ensures value.Some? ==> old(source.pos) < |source.items| && value.value == source.items[old(source.pos)]
      ensures value.Some? ==> Pulled == old(Pulled) + [value.value]
      ensures value.Some? ==> (added <==> Canon()(value.value) !in old(hashSet.value.members))
      ensures value.Some? ==> hashSet.value.members == old(hashSet.value.members) + {Canon()(value.value)}
      ensures added ==> value.Some? && Firsts() == old(Firsts()) + [value.value]
      ensures !added ==> Firsts() == old(Firsts())
    {
      ghost var pos := source.pos;
      value := source.TryGetNext();
      added := false;
      if value.Some? {
        var x := value.value;
        ImageSnoc(Canon(), Pulled, x);
        FirstOccurrencesSnoc(Canon(), Pulled, x, {});
        SliceSnoc(source.items, start, pos);
        added := !hashSet.value.Contains(x);
        hashSet := Some(hashSet.value.Add(x).1);
        Pulled := Pulled + [x];
        assert hashSet.value.members == Image(Canon(), Pulled);
      }
    }

    method Dispose()
      modifies source`disposeCount
      ensures source.disposeCount == old(source.disposeCount) + 1
    {
      source.Dispose();
    }
  }

  /** A terminal consumer: pulls a fresh stage until it reports no element. */
  method ToList<T(==)>(d: Distinct<T>) returns (out: seq<T>)
    requires d.Valid() && d.hashSet.None?
    modifies d`hashSet, d`Pulled, d.source`pos
    ensures out == DuplicateFreePrefix(d.Canon(), old(d.source.Remaining()))
  {
    ghost var input := old(d.source.Remaining());
    ghost var canon := d.Canon();
    out := [];
    while true
      invariant d.Valid() && d.source.items[d.start..] == input
      invariant d.Pulled == out
      invariant Image(canon, out) == d.Members()
      invariant PairwiseDistinct(canon, out)
      decreases |d.source.items| - d.source.pos
    {
      ghost var atEnd := d.source.pos == |d.source.items|;
      var r := d.TryGetNext();
      if r.None? {
        assert out == input[..|out|];
        assert atEnd ==> |out| == |input|;
        assert !atEnd ==> canon(input[|out|]) in Image(canon, out);
        DuplicateFreePrefixUnique(canon, input, out);
        return;
      }
      ImageSnoc(canon, out, r.value);
      out := out + [r.value];
    }
  }

  /** The same consumer over the corrected body. */
  method ToListRetrying<T(==)>(d: Distinct<T>) returns (out: seq<T>)
    requires d.Valid() && d.hashSet.None?
    modifies d`hashSet, d`Pulled, d.source`pos
    ensures out == FirstOccurrences(d.Canon(), old(d.source.Remaining()), {})
  {
    ghost var input := old(d.source.Remaining());
    out := [];
    while true
      invariant d.Valid() && d.source.items[d.start..] == input
      invariant out == d.Firsts()
      decreases |d.source.items| - d.source.pos
    {
      var r := d.TryGetNextRetrying();
      if r.None? {
        assert d.Pulled == input;
        return;
      }
      out := out + [r.value];
    }
  }
}
