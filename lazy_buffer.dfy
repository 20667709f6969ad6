/**
 * The lazy buffer over one source iterator. Its own file is not part of
 * this model; it is modelled from what its callers use: a finite source,
 * the length of the prefix pulled so far, `prefill`, `get_next`, `len`
 * and an indexed read below `len`.
 */
module LazyBuffers {

  class LazyBuffer<T> {
    /** Every item the source iterator will ever produce, in order. */
    const source: seq<T>
    /** How many of them have been pulled into the buffer. */
    var len: nat

    ghost predicate Valid()
      reads this
    {
      len <= |source|
    }

    /** The buffered items. */
    function Buffer(): seq<T>
      reads this
      requires Valid()
    {
      source[..len]
    }

    /** The source has nothing left to pull. */
    predicate Drained()
      reads this
    {
      len == |source|
    }

    constructor (source: seq<T>)
      ensures Valid() && this.source == source && len == 0
    {
      this.source := source;
      len := 0;
    }

    /** Pulls until `k` items are buffered or the source is exhausted. */
    method Prefill(k: nat)
      requires Valid()
      modifies this
      ensures Valid()
      ensures old(len) >= k ==> len == old(len)
      ensures old(len) < k ==> len == if k <= |source| then k else |source|
    {
      while len < k && len < |source|
        invariant old(len) <= len <= |source|
        invariant old(len) >= k ==> len == old(len)
        invariant old(len) < k ==> len <= k
        decreases |source| - len
      {
        len := len + 1;
      }
    }

    /** Pulls one item; reports whether the source had one. */
    method GetNext() returns (grew: bool)
      requires Valid()
      modifies this
      ensures Valid()
      ensures grew == (old(len) < |source|)
      ensures len == if grew then old(len) + 1 else old(len)
    {
      grew := len < |source|;
      if grew {
        len := len + 1;
      }
    }

    /** The buffered item at position `i`. */
    function Get(i: nat): (x: T)
      reads this
      requires Valid() && i < len
      ensures x == Buffer()[i]
    {
      source[i]
    }
  }
}
