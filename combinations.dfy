/**
 * `CombinationsBase`: the strictly increasing `k`-tuples of positions into
 * a lazily filled pool, in lexicographic order.
 */
module Combinations {
  import opened Wrappers
  import opened IndexTuples
  import opened LazyBuffers
  import opened VecItems

  /** A `k`-combination of positions `0..n`: strictly increasing, each below `n`. */
  ghost predicate IsCombination(t: seq<nat>, n: nat) {
    && (forall i, j :: 0 <= i < j < |t| ==> t[i] < t[j])
    && (forall i :: 0 <= i < |t| ==> t[i] < n)
  }

  /**
   * The rightmost position below `len` whose index is not at its maximum
   * `p + n - |t|`: the right-to-left scan of `next`.
   */
  function Pivot(t: seq<nat>, n: nat, len: nat): (r: Option<nat>)
    requires len <= |t|
    ensures r.Some? ==> r.value < len && t[r.value] != r.value + n - |t|
    ensures r.Some? ==> forall q :: r.value < q < len ==> t[q] == q + n - |t|
    ensures r.None? ==> forall q :: 0 <= q < len ==> t[q] == q + n - |t|
    decreases len
  {
    if len == 0 then None
    else if t[len - 1] != len - 1 + n - |t| then Some(len - 1)
    else Pivot(t, n, len - 1)
  }

  /**
   * The combination `next` moves to from `t` over a pool of `n` items:
   * the pivot is incremented and every index to its right follows it
   * consecutively. `None` when every index is at its maximum.
   */
  function Successor(t: seq<nat>, n: nat): Option<seq<nat>> {
    match Pivot(t, n, |t|)
    case None => None
    case Some(p) => Some(Raise(t, p))
  }

  /** Position `p` incremented, every index to its right following it consecutively. */
  function Raise(t: seq<nat>, p: nat): (u: seq<nat>)
    requires p < |t|
    ensures |u| == |t|
  {
    t[..p] + Ascending(t[p] + 1, |t| - p)
  }

  /** Indices of a combination grow by at least one per position. */
  lemma {:induction false} Spread(t: seq<nat>, n: nat, q: nat, p: nat)
    requires IsCombination(t, n) && q <= p < |t|
    ensures t[p] >= t[q] + (p - q)
    decreases p - q
  {
    if q < p {
      Spread(t, n, q, p - 1);
    }
  }

  /** Position `p` of a combination is at most its maximum `p + n - k`. */
  lemma Bounded(t: seq<nat>, n: nat, p: nat)
    requires IsCombination(t, n) && p < |t|
    ensures t[p] <= p + n - |t|
  {
    Spread(t, n, p, |t| - 1);
  }

  /** A `k`-combination of `n` items exists only when `k <= n`. */
  lemma CombinationFits(t: seq<nat>, n: nat)
    requires IsCombination(t, n)
    ensures |t| <= n
  {
    if |t| > 0 {
      Bounded(t, n, 0);
    }
  }

  /** The first tuple `[0, 1, ..., k-1]` is a combination iff `k <= n`. */
  lemma FirstIsCombination(k: nat, n: nat)
    ensures IsCombination(Ascending(0, k), n) <==> k <= n
  {
    if IsCombination(Ascending(0, k), n) {
      CombinationFits(Ascending(0, k), n);
    }
  }

  /** The first tuple is the lexicographically least `k`-combination. */
  lemma FirstIsLeast(v: seq<nat>, n: nat)
    requires IsCombination(v, n)
    ensures LexLessEq(Ascending(0, |v|), v)
  {
    forall q | 0 <= q < |v|
      ensures Ascending(0, |v|)[q] <= v[q]
    {
      Spread(v, n, 0, q);
    }
    PointwiseLexLe(Ascending(0, |v|), v, 0);
  }

  /** The successor is again a combination, and lexicographically larger. */
  lemma SuccessorIsCombination(t: seq<nat>, n: nat)
    requires IsCombination(t, n) && Successor(t, n).Some?
    ensures |Successor(t, n).value| == |t|
    ensures IsCombination(Successor(t, n).value, n)
    ensures LexLess(t, Successor(t, n).value)
  {
    var p := Pivot(t, n, |t|).value;
    var u := Successor(t, n).value;
    var k := |t|;
    Bounded(t, n, p);
    forall i, j | 0 <= i < j < k
      ensures u[i] < u[j]
    {
      if j < p {
      } else if i < p {
        Spread(t, n, i, p);
      }
    }
    assert u[..p] == t[..p];
    assert LexLessAt(t, u, p);
  }

  /**
   * No combination lies strictly between `t` and its successor: every
   * combination above `t` is at or above the successor; and when there
   * is a combination above `t`, a successor exists.
   */
  lemma SuccessorIsNext(t: seq<nat>, v: seq<nat>, n: nat)
    requires IsCombination(t, n) && IsCombination(v, n) && |v| == |t|
    requires LexLess(t, v)
    ensures Successor(t, n).Some?
    ensures LexLessEq(Successor(t, n).value, v)
  {
    var k := |t|;
    var j :| LexLessAt(t, v, j);
    Bounded(v, n, j);
    assert t[j] != j + n - k;
    var p := Pivot(t, n, k).value;
    var u := Successor(t, n).value;
    assert j <= p;
    if j < p {
      assert u[..j] == t[..j];
      assert LexLessAt(u, v, j);
    } else {
      assert u[..j] == v[..j];
      forall q | j <= q < k
        ensures u[q] <= v[q]
      {
        Spread(v, n, j, q);
      }
      PointwiseLexLe(u, v, j);
    }
  }

  /** `next` finds no successor exactly at the last combination `[n-k, ..., n-1]`. */
  lemma SuccessorNoneIsLast(t: seq<nat>, n: nat)
    requires IsCombination(t, n)
    ensures |t| <= n
    ensures Successor(t, n).None? <==> t == Ascending(n - |t|, |t|)
  {
    CombinationFits(t, n);
    if Successor(t, n).None? {
      assert forall q :: 0 <= q < |t| ==> t[q] == q + n - |t|;
    } else {
      var p := Pivot(t, n, |t|).value;
      assert t[p] != Ascending(n - |t|, |t|)[p];
    }
  }

  /**
   * Laziness is invisible: when the pool of `m` items is the whole source,
   * or the last index sits below the last buffered position, the successor
   * over the pool is the successor over the whole source of `n` items.
   */
  lemma LazySuccessor(t: seq<nat>, m: nat, n: nat)
    requires IsCombination(t, m) && 0 < |t| && m <= n
    requires m == n || t[|t| - 1] + 1 < m
    ensures Successor(t, m) == Successor(t, n)
  {
    if m < n {
      assert Pivot(t, m, |t|) == Some(|t| - 1);
      assert Pivot(t, n, |t|) == Some(|t| - 1);
    }
  }

  class CombinationsBase<T> {
    var indices: seq<nat>
    const pool: LazyBuffer<T>
    var first: bool

    ghost predicate Valid()
      reads this, pool
    {
      && pool.Valid()
      && (first ==> indices == Ascending(0, |indices|) && (|indices| <= pool.len || pool.Drained()))
      && (!first ==> IsCombination(indices, pool.len))
    }

    /** `k()`: the length of the combinations produced. */
    function K(): nat
      reads this
    {
      |indices|
    }

    /** `n()`: the current length of the pool. */
    function N(): nat
      reads pool
    {
      pool.len
    }

    /** Every further `next` returns `None`. */
    ghost predicate Exhausted()
      reads this, pool
    {
      if first then K() > |pool.source| else Successor(indices, |pool.source|).None?
    }

    /** The buffered items the current indices select. */
    function Window(): (w: seq<T>)
      reads this, pool
      requires Valid() && !first
      ensures |w| == K() && forall j :: 0 <= j < K() ==> w[j] == pool.Get(indices[j])
    {
      Pick(pool.Buffer(), indices)
    }

    /** `combinations(iter, k)`. */
    constructor (source: seq<T>, k: nat)
      ensures Valid() && fresh(pool)
      ensures pool.source == source && first && indices == Ascending(0, k)
      ensures pool.len == if k <= |source| then k else |source|
    {
      var buffer := new LazyBuffer(source);
      buffer.Prefill(k);
      indices := Ascending(0, k);
      pool := buffer;
      first := true;
    }

    /** `reset(k)`: the initial state for combinations of length `k` over the same pool. */
    method Reset(k: nat)
      requires Valid()
      modifies this, pool
      ensures Valid()
      ensures first && K() == k && indices == Ascending(0, k)
      ensures k < old(K()) ==> pool.len == old(pool.len)
      ensures k >= old(K()) ==> pool.len == if old(pool.len) >= k then old(pool.len)
                                         else if k <= |pool.source| then k else |pool.source|
    {
      first := true;
      if k < |indices| {
        if !old(first) {
          CombinationFits(indices, pool.len);
        }
        indices := indices[..k];
        for i := 0 to k
          modifies this
          invariant first && |indices| == k
          invariant forall q :: 0 <= q < i ==> indices[q] == q
        {
          indices := indices[i := i];
        }
      } else {
        var oldK := |indices|;
        for i := 0 to oldK
          modifies this
          invariant first && |indices| == oldK
          invariant forall q :: 0 <= q < i ==> indices[q] == q
        {
          indices := indices[i := i];
        }
        indices := indices + Ascending(oldK, k - oldK);
        pool.Prefill(k);
      }
      assert indices == Ascending(0, k);
    }

    /**
     * The non-first step of `next` for `k > 0`: pull one item when the last
     * index sits on the last buffered position, then scan right to left for
     * the pivot and move to the successor. Reports whether one was found.
     */
    method Advance() returns (found: bool)
      requires Valid() && !first && K() > 0
      modifies this, pool
      ensures Valid() && !first && K() == old(K())
      ensures found == Successor(old(indices), |pool.source|).Some?
      ensures found ==> indices == Successor(old(indices), |pool.source|).value
      ensures !found ==> indices == old(indices) && pool.Drained()
      ensures old(pool.len) <= pool.len <= old(pool.len) + 1
      ensures pool.len != old(pool.len) ==> old(indices)[old(K()) - 1] + 1 == old(pool.len)
    {
      ghost var t := indices;
      Refill();
      var k := |indices|;
      var pivot := FindPivot();
      if pivot.None? {
        assert t[k - 1] + 1 == pool.len;
        assert Successor(t, |pool.source|).None?;
        return false;
      }
      var i := pivot.value;
      ghost var m := pool.len;
      assert Successor(t, m) == Some(Raise(t, i));
      SuccessorIsCombination(t, m);
      RaiseFrom(i);
      found := true;
    }

    /**
     * The lazy pull of `next`: one more item is drawn from the source when
     * the last index sits on the last buffered item, after which the
     * successor over the buffer is the successor over the whole source.
     */
    method Refill()
      requires Valid() && !first && K() > 0
      modifies pool
      ensures Valid()
      ensures old(pool.len) <= pool.len <= old(pool.len) + 1
      ensures pool.len != old(pool.len) ==> indices[K() - 1] + 1 == old(pool.len)
      ensures Successor(indices, pool.len) == Successor(indices, |pool.source|)
      ensures pool.len == |pool.source| || indices[K() - 1] + 1 < pool.len
    {
      CombinationFits(indices, pool.len);
      var k := |indices|;
      // The pool holds at least `k >= 1` items, so this cannot underflow.
      var lastPos: nat := pool.len - 1;
      if indices[k - 1] == lastPos {
        var _ := pool.GetNext();
      }
      assert IsCombination(indices, pool.len);
      LazySuccessor(indices, pool.len, |pool.source|);
    }

    /**
     * The right-to-left scan of `next`: the rightmost position whose index
     * is below its maximum `i + n() - k()`, or `None` when every index is.
     */
    method FindPivot() returns (p: Option<nat>)
      requires Valid() && !first && K() > 0
      ensures p == Pivot(indices, pool.len, K())
      ensures p.Some? ==> p.value < K() && indices[p.value] < p.value + pool.len - K()
    {
      CombinationFits(indices, pool.len);
      var k := |indices|;
      var i: nat := k - 1;
      // A combination fits the pool, so this cannot underflow.
      var room: nat := pool.len - k;
      while indices[i] == i + room
        invariant i < k
        invariant Pivot(indices, pool.len, k) == Pivot(indices, pool.len, i + 1)
        decreases i
      {
        if i > 0 {
          i := i - 1;
        } else {
          return None;
        }
      }
      Bounded(indices, pool.len, i);
      p := Some(i);
    }

    /** Increments the index at `i` and resets every index to its right to consecutive values. */
    method RaiseFrom(i: nat)
      requires i < K()
      modifies this
      ensures K() == old(K()) && first == old(first)
      ensures indices == Raise(old(indices), i)
    {
      ghost var t := indices;
      indices := indices[i := indices[i] + 1];
      for j := i + 1 to |indices|
        invariant |indices| == |t| && first == old(first)
        invariant indices[..i] == t[..i]
        invariant forall q :: i <= q < j ==> indices[q] == t[i] + 1 + (q - i)
      {
        indices := indices[j := indices[j - 1] + 1];
      }
    }

    /** `next`: the next combination of buffered items, or `None`. */
    method Next() returns (r: Option<seq<T>>)
      requires Valid()
      modifies this, pool
      ensures Valid() && K() == old(K())
      ensures r.None? <==> old(Exhausted())
      ensures r.None? ==> Exhausted()
      ensures r.None? ==> indices == old(indices)
      ensures r.Some? ==> !first && r.value == Pick(pool.source, indices)
      ensures old(first) ==> indices == old(indices) && pool.len == old(pool.len)
      ensures !old(first) ==> !first && match Successor(old(indices), |pool.source|)
                                        case None => r.None?
                                        case Some(u) => indices == u
      ensures old(pool.len) <= pool.len <= old(pool.len) + 1
      ensures pool.len != old(pool.len) ==> old(K()) > 0 && old(indices)[old(K()) - 1] + 1 == old(pool.len)
      ensures r.None? && K() > 0 ==> pool.Drained()
    {
      if first {
        if K() > N() {
          return None;
        }
        first := false;
        FirstIsCombination(K(), pool.len);
      } else if |indices| == 0 {
        return None;
      } else {
        var found := Advance();
        if !found {
          return None;
        }
      }
      PickPrefix(pool.source, pool.len, indices);
      r := Some(CollectToVec(Window()));
    }

    /** `next` of `combinations_map`: the next window, handed to the mapping strategy. */
    method NextMap<R>(manager: MapSlice<T, R>) returns (r: Option<R>)
      requires Valid() && manager.vec == []
      modifies this, pool, manager
      ensures Valid() && manager.vec == [] && K() == old(K())
      ensures r.None? <==> old(Exhausted())
      ensures r.None? ==> Exhausted()
      ensures r.None? ==> indices == old(indices)
      ensures r.Some? ==> !first && manager.seen == Pick(pool.source, indices) && r.value == manager.func(manager.seen)
      ensures old(first) ==> indices == old(indices) && pool.len == old(pool.len)
      ensures !old(first) ==> !first && match Successor(old(indices), |pool.source|)
                                        case None => r.None?
                                        case Some(u) => indices == u
      ensures old(pool.len) <= pool.len <= old(pool.len) + 1
      ensures pool.len != old(pool.len) ==> old(K()) > 0 && old(indices)[old(K()) - 1] + 1 == old(pool.len)
      ensures r.None? && K() > 0 ==> pool.Drained()
    {
      var window := Next();
      if window.Some? {
        var y := manager.NewItem(window.value);
        r := Some(y);
      } else {
        r := None;
      }
    }
  }
}
