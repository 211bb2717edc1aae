/** Equality comparers, the hash set the stages keep, and the sequence notions they induce. */
module Comparers {
  import opened Wrappers

  /** An equality comparer. Any equivalence relation on `T` is the kernel of a map that sends each
      value to a chosen representative of its class: `canon` is that map, and two values are equal
      under the comparer exactly when they have the same representative. */
  datatype Comparer<!T> = Comparer(canon: T -> T)

  /** `EqualityComparer<T>.Default`: plain value equality. */
  function DefaultComparer<T>(): Comparer<T> {
    Comparer(x => x)
  }

  /** `comparer ?? EqualityComparer<T>.Default`, for an optional (nullable) comparer. */
  function OrDefault<T>(comparer: Option<Comparer<T>>): Comparer<T> {
    if comparer.Some? then comparer.value else DefaultComparer()
  }

  /** A hash set under a comparer: `members` holds one representative per class present. */
  datatype HashSet<!T(==)> = HashSet(comparer: Comparer<T>, members: set<T>) {

    predicate Contains(x: T) {
      comparer.canon(x) in members
    }

    /** `set.Add(x)`: true exactly when no equal element was present; afterwards one is. */
    function Add(x: T): (bool, HashSet<T>) {
      (!Contains(x), HashSet(comparer, members + {comparer.canon(x)}))
    }

    /** `set.Remove(x)`: true exactly when an equal element was present; afterwards none is. */
    function Remove(x: T): (bool, HashSet<T>) {
      (Contains(x), HashSet(comparer, members - {comparer.canon(x)}))
    }
  }

  /** `new HashSet<T>(comparer)`. */
  function EmptyHashSet<T(==)>(comparer: Comparer<T>): HashSet<T> {
    HashSet(comparer, {})
  }

  /** `new HashSet<T>(collection, comparer)`: one pass over `collection`, adding each element. */
  function HashSetOf<T(==)>(collection: seq<T>, comparer: Comparer<T>): HashSet<T> {
    HashSet(comparer, Image(comparer.canon, collection))
  }

  /** The classes (as representatives) that occur in `s`. */
  function Image<T(==)>(canon: T -> T, s: seq<T>): set<T> {
    set x | x in s :: canon(x)
  }

  /** No two elements of `s` are equal under the comparer. */
  predicate PairwiseDistinct<T(==)>(canon: T -> T, s: seq<T>) {
    forall i, j :: 0 <= i < j < |s| ==> canon(s[i]) != canon(s[j])
  }

  /** `a` is `b` with some elements left out, order kept. */
  ghost predicate IsSubsequence<T>(a: seq<T>, b: seq<T>)
    decreases |b|
  {
    || a == []
    || (&& b != []
        && (|| (a[|a| - 1] == b[|b| - 1] && IsSubsequence(a[..|a| - 1], b[..|b| - 1]))
            || IsSubsequence(a, b[..|b| - 1])))
  }

  lemma SubsequenceWeaken<T>(a: seq<T>, b: seq<T>)
    requires b != []
    requires IsSubsequence(a, b[..|b| - 1])
    ensures IsSubsequence(a, b)
  {
  }

  lemma ImageSnoc<T>(canon: T -> T, s: seq<T>, x: T)
    ensures Image(canon, s + [x]) == Image(canon, s) + {canon(x)}
  {
    assert forall y :: y in s + [x] <==> y in s || y == x;
  }

  lemma PrefixSnoc<T>(s: seq<T>, n: nat)
    requires n < |s|
    ensures s[..n + 1] == s[..n] + [s[n]]
  {
  }

  /** Appending an element of a new class keeps a sequence free of equal elements. */
  lemma DistinctSnoc<T>(canon: T -> T, s: seq<T>, x: T)
    requires PairwiseDistinct(canon, s) && canon(x) !in Image(canon, s)
    ensures PairwiseDistinct(canon, s + [x])
    ensures Image(canon, s + [x]) == Image(canon, s) + {canon(x)}
  {
    ImageSnoc(canon, s, x);
    forall i | 0 <= i < |s|
      ensures canon(s[i]) != canon(x)
    {
      assert s[i] in s;
    }
  }

  lemma SliceSnoc<T>(s: seq<T>, i: nat, j: nat)
    requires i <= j < |s|
    ensures s[i..j + 1] == s[i..j] + [s[j]]
  {
  }

  lemma ImageOfPrefix<T>(canon: T -> T, s: seq<T>, n: nat)
    requires n <= |s|
    ensures Image(canon, s[..n]) <= Image(canon, s)
  {
    assert forall y :: y in s[..n] ==> y in s;
  }

  /** Each element of `s` taken once, in order of first occurrence, leaving out the classes in
      `excluded`: what a filter that keeps a hash set seeded with `excluded` and yields an element
      exactly when `Add` succeeds produces. */
  function FirstOccurrences<T(==)>(canon: T -> T, s: seq<T>, excluded: set<T>): seq<T>
    decreases |s|
  {
    if s == [] then []
    else
      var init, x := s[..|s| - 1], s[|s| - 1];
      FirstOccurrences(canon, init, excluded)
        + if canon(x) in excluded + Image(canon, init) then [] else [x]
  }

  /** Every class of `s` that is not excluded is represented among the first occurrences, and
      nothing else is. */
  lemma {:induction false} FirstOccurrencesImage<T>(canon: T -> T, s: seq<T>, excluded: set<T>)
    ensures Image(canon, FirstOccurrences(canon, s, excluded)) == Image(canon, s) - excluded
    decreases |s|
  {
    if s != [] {
      var init, x := s[..|s| - 1], s[|s| - 1];
      var r := FirstOccurrences(canon, init, excluded);
      FirstOccurrencesImage(canon, init, excluded);
      assert s == init + [x];
      ImageSnoc(canon, init, x);
      if canon(x) !in excluded + Image(canon, init) {
        assert FirstOccurrences(canon, s, excluded) == r + [x];
        ImageSnoc(canon, r, x);
        assert Image(canon, s) - excluded == (Image(canon, init) - excluded) + {canon(x)};
      } else {
        assert FirstOccurrences(canon, s, excluded) == r;
      }
    }
  }

  /** No two first occurrences are equal under the comparer. */
  lemma {:induction false} FirstOccurrencesDistinct<T>(canon: T -> T, s: seq<T>, excluded: set<T>)
    ensures PairwiseDistinct(canon, FirstOccurrences(canon, s, excluded))
    decreases |s|
  {
    if s != [] {
      var init, x := s[..|s| - 1], s[|s| - 1];
      var r := FirstOccurrences(canon, init, excluded);
      FirstOccurrencesDistinct(canon, init, excluded);
      FirstOccurrencesImage(canon, init, excluded);
      if canon(x) !in excluded + Image(canon, init) {
        assert canon(x) !in Image(canon, r);
        forall i, j | 0 <= i < j < |r + [x]|
          ensures canon((r + [x])[i]) != canon((r + [x])[j])
        {
          if j == |r| {
            assert (r + [x])[i] in r;
          }
        }
      }
    }
  }

  /** Extending `s` by one element extends its first occurrences by that element exactly when the
      element is new and not excluded. */
  lemma FirstOccurrencesSnoc<T>(canon: T -> T, s: seq<T>, x: T, excluded: set<T>)
    ensures canon(x) in excluded + Image(canon, s) ==>
              FirstOccurrences(canon, s + [x], excluded) == FirstOccurrences(canon, s, excluded)
    ensures canon(x) !in excluded + Image(canon, s) ==>
              FirstOccurrences(canon, s + [x], excluded) == FirstOccurrences(canon, s, excluded) + [x]
  {
    assert (s + [x])[..|s + [x]| - 1] == s;
  }

  /** The first occurrences are drawn from `s`, in the order of `s`. */
  lemma {:induction false} FirstOccurrencesSubsequence<T>(canon: T -> T, s: seq<T>, excluded: set<T>)
    ensures IsSubsequence(FirstOccurrences(canon, s, excluded), s)
    decreases |s|
  {
    if s != [] {
      var init, x := s[..|s| - 1], s[|s| - 1];
      var r := FirstOccurrences(canon, init, excluded);
      FirstOccurrencesSubsequence(canon, init, excluded);
      if canon(x) !in excluded + Image(canon, init) {
        assert (r + [x])[..|r + [x]| - 1] == r;
      } else {
        assert FirstOccurrences(canon, s, excluded) == r;
        SubsequenceWeaken(r, s);
      }
    }
  }

  /** Filtering a prefix gives a prefix of the filtered whole. */
  lemma {:induction false} FirstOccurrencesOfPrefix<T>(canon: T -> T, s: seq<T>, excluded: set<T>, n: nat)
    requires n <= |s|
    ensures var f := FirstOccurrences(canon, s[..n], excluded);
            |f| <= |FirstOccurrences(canon, s, excluded)| && f == FirstOccurrences(canon, s, excluded)[..|f|]
    decreases |s|
  {
    if n < |s| {
      var init := s[..|s| - 1];
      assert s[..n] == init[..n];
      FirstOccurrencesOfPrefix(canon, init, excluded, n);
    } else {
      assert s[..n] == s;
    }
  }

  /** A sequence with no two equal elements, none of them excluded, is its own first occurrences. */
  lemma {:induction false} FirstOccurrencesOfDistinct<T>(canon: T -> T, s: seq<T>, excluded: set<T>)
    requires PairwiseDistinct(canon, s)
    requires Image(canon, s) !! excluded
    ensures FirstOccurrences(canon, s, excluded) == s
    decreases |s|
  {
    if s != [] {
      var init, x := s[..|s| - 1], s[|s| - 1];
      assert s == init + [x];
      assert PairwiseDistinct(canon, init);
      ImageOfPrefix(canon, s, |s| - 1);
      FirstOccurrencesOfDistinct(canon, init, excluded);
      assert canon(x) !in Image(canon, init);
      assert canon(x) in Image(canon, s);
    }
  }

  /** Filtering by first occurrence is idempotent. */
  lemma FirstOccurrencesIdempotent<T>(canon: T -> T, s: seq<T>)
    ensures FirstOccurrences(canon, FirstOccurrences(canon, s, {}), {}) == FirstOccurrences(canon, s, {})
  {
    FirstOccurrencesDistinct(canon, s, {});
    FirstOccurrencesOfDistinct(canon, FirstOccurrences(canon, s, {}), {});
  }

  /** A sequence with no two equal elements has as many classes as elements. */
  lemma {:induction false} DistinctImageSize<T>(canon: T -> T, s: seq<T>)
    requires PairwiseDistinct(canon, s)
    ensures |Image(canon, s)| == |s|
    decreases |s|
  {
    if s != [] {
      var init, x := s[..|s| - 1], s[|s| - 1];
      assert s == init + [x];
      assert PairwiseDistinct(canon, init);
      DistinctImageSize(canon, init);
      ImageSnoc(canon, init, x);
      assert canon(x) !in Image(canon, init);
    }
  }
}
