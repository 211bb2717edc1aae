/** The `Except` stage (src/ZLinq/Linq/Except.cs). */
module ExceptStage {
  import opened Wrappers
  import opened Comparers
  import opened Enumeration

  /** The longest prefix of `s` whose elements each remove a still-present class from `members`:
      no two of its elements are equal, all of them are in `members`, and the element after it (if
      any) is not in what is left. */
  function RemovingPrefix<T(==)>(canon: T -> T, s: seq<T>, members: set<T>): (r: seq<T>)
    ensures |r| <= |s| && r == s[..|r|]
    ensures PairwiseDistinct(canon, r)
    ensures Image(canon, r) <= members
    ensures |r| < |s| ==> canon(s[|r|]) !in members - Image(canon, r)
    decreases |s|
  {
    if s == [] then []
    else
      var init, x := s[..|s| - 1], s[|s| - 1];
      var p := RemovingPrefix(canon, init, members);
      if p == init && canon(x) in members - Image(canon, init) then
        assert s == init + [x];
        ImageSnoc(canon, init, x);
        s
      else
        assert |p| == |init| ==> p == init;
        p
  }

  /** The properties above pin the prefix down. */
  lemma RemovingPrefixUnique<T>(canon: T -> T, s: seq<T>, members: set<T>, p: seq<T>)
    requires |p| <= |s| && p == s[..|p|]
    requires PairwiseDistinct(canon, p) && Image(canon, p) <= members
    requires |p| == |s| || canon(s[|p|]) !in members - Image(canon, p)
    ensures p == RemovingPrefix(canon, s, members)
  {
    forall k | 0 <= k < |p|
      ensures canon(p[k]) in members - Image(canon, p[..k])
    {
      assert p[k] in p;
      forall y | y in p[..k]
        ensures canon(y) != canon(p[k])
      {
        var i :| 0 <= i < k && p[..k][i] == y;
      }
    }
  }

  /** Each class of `members` is yielded at most once, so a full enumeration yields no more
      elements than `members` has classes, and no more than the source has elements. */
  lemma RemovingPrefixBound<T>(canon: T -> T, s: seq<T>, members: set<T>)
    ensures |RemovingPrefix(canon, s, members)| <= |members|
    ensures |RemovingPrefix(canon, s, members)| <= |s|
  {
    var r := RemovingPrefix(canon, s, members);
    DistinctImageSize(canon, r);
    assert |Image(canon, r)| <= |members| by {
      SubsetCardinality(Image(canon, r), members);
    }
  }

  lemma {:induction false} SubsetCardinality<T>(a: set<T>, b: set<T>)
    requires a <= b
    ensures |a| <= |b|
    decreases |a|
  {
    if a != {} {
      var x :| x in a;
      SubsetCardinality(a - {x}, b - {x});
    }
  }

  /** On source `[a, b, a]` with `second = [a]` and two different classes (for instance
      `[2, 1, 2]` and `[2]`) the stage as written yields `[a]`, an element that IS in `second`, and
      then stops at `b`; the set difference of .NET's `Enumerable.Except` is `[b]`. */
  lemma RemovingPrefixExample<T>(canon: T -> T, a: T, b: T)
    requires canon(a) != canon(b)
    ensures RemovingPrefix(canon, [a, b, a], Image(canon, [a])) == [a]
  {
    assert [] + [a] == [a] && [a, b, a][..1] == [a];
    ImageSnoc(canon, [], a);
    RemovingPrefixUnique(canon, [a, b, a], Image(canon, [a]), [a]);
  }

  /** ... where first-occurrence filtering that excludes `second` yields `[b]`. */
  lemma SetDifferenceExample<T>(canon: T -> T, a: T, b: T)
    requires canon(a) != canon(b)
    ensures FirstOccurrences(canon, [a, b, a], Image(canon, [a])) == [b]
  {
    assert [] + [a] == [a] && [a] + [b] == [a, b] && [a, b] + [a] == [a, b, a];
    ImageSnoc(canon, [], a);
    ImageSnoc(canon, [a], b);
    FirstOccurrencesSnoc(canon, [], a, Image(canon, [a]));
    FirstOccurrencesSnoc(canon, [a], b, Image(canon, [a]));
    FirstOccurrencesSnoc(canon, [a, b], a, Image(canon, [a]));
  }

  /** Taking a present class out of a set shrinks it by exactly one. */
  lemma RemoveOne<T>(s: set<T>, t: set<T>, x: T)
    requires x in s && t == s - {x}
    ensures |t| == |s| - 1
  {
  }

  /** `Except<TEnumerator, TSource>` as written: owns its upstream `source`; `second` is read once,
      into the set, on the first pull. */
  class Except<T(==)> {
    const source: Upstream<T>
    const second: seq<T>
    const comparer: Option<Comparer<T>>
    var hashSet: Option<HashSet<T>>
    /** Where the upstream cursor stood when the stage was built. */
    ghost const start: nat
    /** What this stage has returned so far. */
    ghost var Yielded: seq<T>

    /** The comparer the set uses. */
    ghost function Canon(): T -> T {
      OrDefault(comparer).canon
    }

    /** The classes a pull can still remove: the set's contents, or, before the set exists, what
        it will be filled with. */
    ghost function Available(): set<T>
      reads this
    {
      if hashSet.Some? then hashSet.value.members else Image(Canon(), second)
    }

    ghost predicate Valid()
      reads this, source
    {
      && source.Valid()
      && start <= source.pos
      && (hashSet.None? ==> source.pos == start && Yielded == [])
      && (hashSet.Some? ==> hashSet.value.comparer == OrDefault(comparer))
      && Available() == Image(Canon(), second) - Image(Canon(), Yielded)
    }

    constructor (source: Upstream<T>, second: seq<T>, comparer: Option<Comparer<T>>)
      requires source.Valid()
      ensures Valid()
      ensures this.source == source && this.second == second && this.comparer == comparer
      ensures hashSet == None && start == source.pos && Yielded == []
    {
      this.source := source;
      this.second := second;
      this.comparer := comparer;
      hashSet := None;
      start := source.pos;
      Yielded := [];
    }

    method TryGetNonEnumeratedCount() returns (ok: bool, count: int)
      ensures !ok && count == 0
    {
      ok, count := false, 0;
    }

    method TryGetSpan() returns (ok: bool, span: seq<T>)
      ensures !ok && span == []
    {
      ok, span := false, [];
    }

    method TryCopyTo(dest: array<T>) returns (ok: bool)
      ensures !ok
    {
      ok := false;
    }

    /** As written: one upstream pull per call; the element is yielded exactly when `Remove`
        finds it in the set, and `false` is returned on exhaustion and on any element not in it. */
    method TryGetNext() returns (r: Option<T>)
      requires Valid()
      modifies this`hashSet, this`Yielded, source`pos
      ensures Valid() && hashSet.Some?
      ensures old(source.pos) == |source.items| ==> r == None && source.pos == old(source.pos)
      ensures old(source.pos) < |source.items| ==>
                var x := source.items[old(source.pos)];
                && source.pos == old(source.pos) + 1
                && (r.Some? <==> Canon()(x) in old(Available()))
                && (r.Some? ==> r.value == x)
      ensures r.Some? ==> Available() == old(Available()) - {Canon()(r.value)}
      ensures r.Some? ==> |Available()| == |old(Available())| - 1
      ensures r.None? ==> Available() == old(Available())
      ensures Yielded == old(Yielded) + if r.Some? then [r.value] else []
    {
      if hashSet.None? {
        hashSet := Some(HashSetOf(second, OrDefault(comparer)));
      }
      ghost var before := Available();
      r := PullAndRemove();
      if r.Some? {
        RemoveOne(before, Available(), Canon()(r.value));
      }
    }

    /** `source.TryGetNext(out var value) && set.Remove(value)`, once the set exists. */
    method PullAndRemove() returns (r: Option<T>)
      requires Valid() && hashSet.Some?
      modifies this`hashSet, this`Yielded, source`pos
      ensures Valid() && hashSet.Some?
      ensures old(source.pos) == |source.items| ==> r == None && source.pos == old(source.pos)
      ensures old(source.pos) < |source.items| ==>
                var x := source.items[old(source.pos)];
                && source.pos == old(source.pos) + 1
                && (r.Some? <==> Canon()(x) in old(Available()))
                && (r.Some? ==> r.value == x)
      ensures r.Some? ==> Available() == old(Available()) - {Canon()(r.value)}
      ensures r.None? ==> Available() == old(Available())
      ensures Yielded == old(Yielded) + if r.Some? then [r.value] else []
    {
      r := source.TryGetNext();
      if r.Some? {
        var removed := hashSet.value.Contains(r.value);
        hashSet := Some(hashSet.value.Remove(r.value).1);
        if removed {
          ImageSnoc(Canon(), Yielded, r.value);
          Yielded := Yielded + [r.value];
          assert Available() == Image(Canon(), second) - Image(Canon(), Yielded);
        } else {
          assert Available() == old(Available());
          r := None;
        }
      }
    }

    method Dispose()
      modifies source`disposeCount
      ensures source.disposeCount == old(source.disposeCount) + 1
    {
      source.Dispose();
    }
  }

  /** A terminal consumer: pulls a fresh stage until it reports no element. */
  method ToList<T(==)>(e: Except<T>) returns (out: seq<T>)
    requires e.Valid() && e.hashSet.None?
    modifies e`hashSet, e`Yielded, e.source`pos
    ensures out == RemovingPrefix(e.Canon(), old(e.source.Remaining()), Image(e.Canon(), e.second))
  {
    ghost var input := old(e.source.Remaining());
    out := [];
    ghost var canon, members := e.Canon(), Image(e.Canon(), e.second);
    while true
      invariant e.Valid() && e.source.items[e.start..] == input
      invariant e.source.pos == e.start + |out| && out == input[..|out|] && out == e.Yielded
      invariant e.Available() == members - Image(canon, out)
      invariant PairwiseDistinct(canon, out) && Image(canon, out) <= members
      decreases |e.source.items| - e.source.pos
    {
      ghost var atEnd := e.source.pos == |e.source.items|;
      ghost var next := if atEnd then None else Some(e.source.items[e.source.pos]);
      assert !atEnd ==> next.value == input[|out|];
      var r := e.TryGetNext();
      if r.None? {
        assert atEnd ==> |out| == |input|;
        assert !atEnd ==> canon(next.value) !in members - Image(canon, out);
        RemovingPrefixUnique(canon, input, members, out);
        return;
      }
      assert !atEnd && r.value == next.value == input[|out|];
      PrefixSnoc(input, |out|);
      DistinctSnoc(canon, out, r.value);
      out := out + [r.value];
    }
  }

  /** The body .NET's `Enumerable.Except` has: the set is filled from `second`, an element is
      yielded when `Add` succeeds, and the stage keeps pulling past rejected elements. */
  class ExceptCorrected<T(==)> {
    const source: Upstream<T>
    const second: seq<T>
    const comparer: Option<Comparer<T>>
    var hashSet: Option<HashSet<T>>
    ghost const start: nat
    ghost var Pulled: seq<T>

    ghost function Canon(): T -> T {
      OrDefault(comparer).canon
    }

    /** What a full enumeration has produced so far: the first occurrences of what was pulled,
        leaving out the classes of `second`. */
    ghost function Output(): seq<T>
      reads this
    {
      FirstOccurrences(Canon(), Pulled, Image(Canon(), second))
    }

    ghost predicate Valid()
      reads this, source
    {
      && source.Valid()
      && source.pos == start + |Pulled|
      && source.items[start..source.pos] == Pulled
      && (hashSet.None? ==> Pulled == [])
      && (hashSet.Some? ==> hashSet.value.comparer == OrDefault(comparer))
      && (hashSet.Some? ==> hashSet.value.members == Image(Canon(), second) + Image(Canon(), Pulled))
    }

    constructor (source: Upstream<T>, second: seq<T>, comparer: Option<Comparer<T>>)
      requires source.Valid()
      ensures Valid()
      ensures this.source == source && this.second == second && this.comparer == comparer
      ensures hashSet == None && start == source.pos && Pulled == []
    {
      this.source := source;
      this.second := second;
      this.comparer := comparer;
      hashSet := None;
      start := source.pos;
      Pulled := [];
    }

    method TryGetNext() returns (r: Option<T>)
      requires Valid()
      modifies this`hashSet, this`Pulled, source`pos
      ensures Valid() && hashSet.Some?
      ensures r.None? ==> source.pos == |source.items|
      ensures r.Some? ==> |old(Pulled)| < |Pulled| && r.value == Pulled[|Pulled| - 1]
      ensures Output() == old(Output()) + if r.Some? then [r.value] else []
    {
      if hashSet.None? {
        hashSet := Some(HashSetOf(second, OrDefault(comparer)));
      }
      ghost var output0 := Output();
      while true
        invariant Valid() && hashSet.Some?
        invariant |old(Pulled)| <= |Pulled|
        invariant Output() == output0
        decreases |source.items| - source.pos
      {
        var value, added := PullAndAdd();
        if value.None? {
          return None;
        }
        if added {
          return value;
        }
      }
    }

    /** `source.TryGetNext(out var value)` and, when that succeeds, `set.Add(value)`. */
    method PullAndAdd() returns (value: Option<T>, added: bool)
      requires Valid() && hashSet.Some?
      modifies this`hashSet, this`Pulled, source`pos
      ensures Valid() && hashSet.Some?
      ensures value.None? ==> source.pos == |source.items| && Pulled == old(Pulled) && !added
      ensures value.Some? ==> Pulled == old(Pulled) + [value.value]
      ensures added ==> value.Some? && Output() == old(Output()) + [value.value]
      ensures !added ==> Output() == old(Output())
    {
      ghost var pos := source.pos;
      value := source.TryGetNext();
      added := false;
      if value.Some? {
        var x := value.value;
        ImageSnoc(Canon(), Pulled, x);
        FirstOccurrencesSnoc(Canon(), Pulled, x, Image(Canon(), second));
        SliceSnoc(source.items, start, pos);
        added := !hashSet.value.Contains(x);
        hashSet := Some(hashSet.value.Add(x).1);
        Pulled := Pulled + [x];
        assert hashSet.value.members == Image(Canon(), second) + Image(Canon(), Pulled);
      }
    }
  }

  /** The same consumer over the corrected stage: the set difference, first occurrences only. */
  method ToListCorrected<T(==)>(e: ExceptCorrected<T>) returns (out: seq<T>)
    requires e.Valid() && e.hashSet.None?
    modifies e`hashSet, e`Pulled, e.source`pos
    ensures out == FirstOccurrences(e.Canon(), old(e.source.Remaining()), Image(e.Canon(), e.second))
  {
    ghost var input := old(e.source.Remaining());
    out := [];
    while true
      invariant e.Valid() && e.source.items[e.start..] == input
      invariant out == e.Output()
      decreases |e.source.items| - e.source.pos
    {
      var r := e.TryGetNext();
      if r.None? {
        assert e.Pulled == input;
        return;
      }
      out := out + [r.value];
    }
  }
}
