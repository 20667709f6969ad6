/**
 * The output strategies: turning a window of buffered items into the
 * value a generator yields.
 */
module VecItems {

  /** The window the indices select: the items at `idx`, in order. */
  function Pick<T>(buffer: seq<T>, idx: seq<nat>): (w: seq<T>)
    requires forall i :: 0 <= i < |idx| ==> idx[i] < |buffer|
    ensures |w| == |idx|
    ensures forall i :: 0 <= i < |idx| ==> w[i] == buffer[idx[i]]
  {
    seq(|idx|, i requires 0 <= i < |idx| => buffer[idx[i]])
  }

  /** Reading a window through a prefix of the source reads the source. */
  lemma PickPrefix<T>(source: seq<T>, len: nat, idx: seq<nat>)
    requires len <= |source|
    requires forall i :: 0 <= i < |idx| ==> idx[i] < len
    ensures Pick(source[..len], idx) == Pick(source, idx)
  {
  }

  /** `CollectToVec::new_item`: the window's items, collected in order. */
  function CollectToVec<T>(window: seq<T>): (v: seq<T>)
    ensures |v| == |window| && forall i :: 0 <= i < |v| ==> v[i] == window[i]
  {
    window
  }

  /**
   * `MapSlice`: a reusable scratch vector and the caller's mapping
   * function, which sees the filled scratch vector as a slice.
   */
  class MapSlice<T, R> {
    const func: seq<T> -> R
    const capacity: nat
    var vec: seq<T>
    /** The slice `func` was last applied to. */
    ghost var seen: seq<T>

    constructor WithCapacity(func: seq<T> -> R, capacity: nat)
      ensures this.func == func && this.capacity == capacity && vec == []
    {
      this.func := func;
      this.capacity := capacity;
      vec := [];
      seen := [];
    }

    method NewItem(window: seq<T>) returns (r: R)
      requires vec == []
      modifies this
      ensures seen == window
      ensures r == func(window)
      ensures vec == []
    {
      vec := vec + window;
      seen := vec;
      r := func(vec);
      vec := [];
    }
  }
}
