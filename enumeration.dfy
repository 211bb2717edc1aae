/** The pull protocol's origin: the enumerator a pipeline starts from. */
module Enumeration {
  import opened Wrappers

  /** An enumerator over an in-memory sequence, the upstream stage every operator owns. `pos` is
      the cursor; `disposeCount` records how often `Dispose` reached it. */
  class Upstream<T> {
    const items: seq<T>
    var pos: nat
    var disposeCount: nat

    ghost predicate Valid()
      reads this
    {
      pos <= |items|
    }

    /** What is still to be pulled. */
    ghost function Remaining(): seq<T>
      reads this
      requires Valid()
    {
      items[pos..]
    }

    constructor (items: seq<T>)
      ensures Valid()
      ensures this.items == items && pos == 0 && disposeCount == 0
    {
      this.items := items;
      pos := 0;
      disposeCount := 0;
    }

    /** Yields the next element and advances, or reports exhaustion and stays put. */
    method TryGetNext() returns (r: Option<T>)
      requires Valid()
      modifies this`pos
      ensures Valid()
      ensures old(pos) < |items| ==> r == Some(items[old(pos)]) && pos == old(pos) + 1
      ensures old(pos) == |items| ==> r == None && pos == old(pos)
    {
      if pos < |items| {
        r := Some(items[pos]);
        pos := pos + 1;
      } else {
        r := None;
      }
    }

    method Dispose()
      modifies this`disposeCount
      ensures disposeCount == old(disposeCount) + 1
    {
      disposeCount := disposeCount + 1;
    }
  }
}
