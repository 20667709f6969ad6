/**
 * `CombinationsWithReplacementBase`: the non-decreasing `k`-tuples of
 * positions (multisets of positions) into a lazily filled pool, in
 * lexicographic order.
 */
module CombinationsWithReplacement {
  import opened Wrappers
  import opened IndexTuples
  import opened LazyBuffers
  import opened VecItems

  /** A `k`-multiset of positions `0..n`: non-decreasing, each below `n`. */
  ghost predicate IsMulticombination(t: seq<nat>, n: nat) {
    && (forall i, j :: 0 <= i < j < |t| ==> t[i] <= t[j])
    && (forall i :: 0 <= i < |t| ==> t[i] < n)
  }

  /**
   * The rightmost position below `len` whose index is below the last pool
   * position `n - 1`: the reverse scan of `next`.
   */
  function RaisePoint(t: seq<nat>, n: nat, len: nat): (r: Option<nat>)
    requires len <= |t|
    ensures r.Some? ==> r.value < len && t[r.value] + 1 < n
    ensures r.Some? ==> forall q :: r.value < q < len ==> t[q] + 1 >= n
    ensures r.None? ==> forall q :: 0 <= q < len ==> t[q] + 1 >= n
    decreases len
  {
    if len == 0 then None
    else if t[len - 1] + 1 < n then Some(len - 1)
    else RaisePoint(t, n, len - 1)
  }

  /**
   * The tuple `next` moves to from `t` over a pool of `n` items: the
   * raise point and every index to its right take the raise point's
   * value plus one. `None` when every index is on the last position.
   */
  function Successor(t: seq<nat>, n: nat): Option<seq<nat>> {
    match RaisePoint(t, n, |t|)
    case None => None
    case Some(p) => Some(t[..p] + Repeat(t[p] + 1, |t| - p))
  }

  /** The all-zero tuple is a `k`-multiset over `n` items iff `k == 0` or `n >= 1`. */
  lemma FirstIsMulticombination(k: nat, n: nat)
    ensures IsMulticombination(Repeat(0, k), n) <==> k == 0 || n >= 1
  {
    if k > 0 && IsMulticombination(Repeat(0, k), n) {
      assert Repeat(0, k)[0] < n;
    }
  }

  /** The all-zero tuple is the lexicographically least `k`-multiset. */
  lemma FirstIsLeast(v: seq<nat>, n: nat)
    requires IsMulticombination(v, n)
    ensures LexLessEq(Repeat(0, |v|), v)
  {
    PointwiseLexLe(Repeat(0, |v|), v, 0);
  }

  /** The successor is again a multiset of positions, and lexicographically larger. */
  lemma SuccessorIsMulticombination(t: seq<nat>, n: nat)
    requires IsMulticombination(t, n) && Successor(t, n).Some?
    ensures |Successor(t, n).value| == |t|
    ensures IsMulticombination(Successor(t, n).value, n)
    ensures LexLess(t, Successor(t, n).value)
  {
    var p := RaisePoint(t, n, |t|).value;
    var u := Successor(t, n).value;
    assert u[..p] == t[..p];
    assert LexLessAt(t, u, p);
  }

  /**
   * No multiset lies strictly between `t` and its successor, and one
   * exists whenever some multiset lies above `t`.
   */
  lemma SuccessorIsNext(t: seq<nat>, v: seq<nat>, n: nat)
    requires IsMulticombination(t, n) && IsMulticombination(v, n) && |v| == |t|
    requires LexLess(t, v)
    ensures Successor(t, n).Some?
    ensures LexLessEq(Successor(t, n).value, v)
  {
    var k := |t|;
    var j :| LexLessAt(t, v, j);
    assert t[j] + 1 < n;
    var p := RaisePoint(t, n, k).value;
    var u := Successor(t, n).value;
    assert j <= p;
    if j < p {
      assert u[..j] == t[..j];
      assert LexLessAt(u, v, j);
    } else {
      assert u[..j] == v[..j];
      PointwiseLexLe(u, v, j);
    }
  }

  /** `next` finds no successor exactly when every index is on the last position. */
  lemma SuccessorNoneIsLast(t: seq<nat>, n: nat)
    requires IsMulticombination(t, n)
    ensures Successor(t, n).None? <==> forall i :: 0 <= i < |t| ==> t[i] + 1 == n
  {
  }

  /**
   * Laziness is invisible: when the pool of `m` items is the whole source,
   * or the last index sits below the last buffered position, the successor
   * over the pool is the successor over the whole source of `n` items.
   */
  lemma LazySuccessor(t: seq<nat>, m: nat, n: nat)
    requires IsMulticombination(t, m) && 0 < |t| && m <= n
    requires m == n || t[|t| - 1] + 1 < m
    ensures Successor(t, m) == Successor(t, n)
  {
    if m < n {
      assert RaisePoint(t, m, |t|) == Some(|t| - 1);
      assert RaisePoint(t, n, |t|) == Some(|t| - 1);
    }
  }

  class CombinationsWithReplacementBase<T> {
    var indices: seq<nat>
    const pool: LazyBuffer<T>
    var first: bool

    ghost predicate Valid()
      reads this, pool
    {
      && pool.Valid()
      && (first ==> indices == Repeat(0, |indices|) && pool.len == 0)
      && (!first ==> IsMulticombination(indices, pool.len))
    }

    function K(): nat
      reads this
    {
      |indices|
    }

    /** The buffered items the current indices select. */
    function Window(): (w: seq<T>)
      reads this, pool
      requires Valid() && !first
      ensures |w| == K() && forall j :: 0 <= j < K() ==> w[j] == pool.Get(indices[j])
    {
      Pick(pool.Buffer(), indices)
    }

    /** Every further `next` returns `None`. */
    ghost predicate Exhausted()
      reads this, pool
    {
      if first then K() > 0 && |pool.source| == 0 else Successor(indices, |pool.source|).None?
    }

    /** `combinations_with_replacement(iter, k)`: `k` zeros, an empty pool, nothing pulled. */
    constructor (source: seq<T>, k: nat)
      ensures Valid() && fresh(pool)
      ensures pool.source == source && pool.len == 0 && first && indices == Repeat(0, k)
    {
      indices := Repeat(0, k);
      pool := new LazyBuffer(source);
      first := true;
    }

    /**
     * The reverse scan of `next`: the rightmost position whose index is
     * below `pool.len() - 1`, with that index plus one.
     */
    method FindIncrement() returns (increment: Option<(nat, nat)>)
      requires Valid() && !first
      ensures increment.None? <==> RaisePoint(indices, pool.len, K()).None?
      ensures increment.Some? ==> increment.value.0 == RaisePoint(indices, pool.len, K()).value
      ensures increment.Some? ==> increment.value.1 == indices[increment.value.0] + 1
    {
      increment := None;
      var i := |indices|;
      while i > 0
        invariant 0 <= i <= |indices|
        invariant RaisePoint(indices, pool.len, K()) == RaisePoint(indices, pool.len, i)
      {
        i := i - 1;
        // Some index is below `pool.len()`, so this cannot underflow.
        var top: nat := pool.len - 1;
        if indices[i] < top {
          increment := Some((i, indices[i] + 1));
          break;
        }
      }
    }

    /** Sets the index at `from` and every index to its right to `value`. */
    method FillFrom(from: nat, value: nat)
      requires from <= K()
      modifies this
      ensures K() == old(K()) && first == old(first)
      ensures indices == old(indices)[..from] + Repeat(value, K() - from)
    {
      ghost var t := indices;
      for i := from to |indices|
        invariant |indices| == |t| && first == old(first)
        invariant indices[..from] == t[..from]
        invariant forall q :: from <= q < i ==> indices[q] == value
      {
        indices := indices[i := value];
      }
    }

    /** The non-first step of `next`: pull one item, then move to the successor. */
    method Advance() returns (found: bool)
      requires Valid() && !first
      modifies this, pool
      ensures Valid() && !first && K() == old(K())
      ensures found == Successor(old(indices), |pool.source|).Some?
      ensures found ==> indices == Successor(old(indices), |pool.source|).value
      ensures !found ==> indices == old(indices)
      ensures pool.len == if old(pool.len) < |pool.source| then old(pool.len) + 1 else old(pool.len)
    {
      ghost var t := indices;
      var _ := pool.GetNext();
      assert IsMulticombination(t, pool.len);
      if |t| > 0 {
        LazySuccessor(t, pool.len, |pool.source|);
      }
      var increment := FindIncrement();
      match increment {
        case Some((from, value)) =>
          FillFrom(from, value);
          assert Successor(t, pool.len) == Some(indices);
          SuccessorIsMulticombination(t, pool.len);
          assert IsMulticombination(indices, pool.len);
          assert Successor(t, |pool.source|) == Some(indices);
          found := true;
        case None =>
          assert Successor(t, |pool.source|).None?;
          found := false;
      }
    }

    /** `next`: the next multiset of buffered items, or `None`. */
    method Next() returns (r: Option<seq<T>>)
      requires Valid()
      modifies this, pool
      ensures Valid() && K() == old(K())
      ensures r.None? <==> old(Exhausted())
      ensures r.None? ==> Exhausted() && indices == old(indices)
      ensures r.Some? ==> !first && r.value == Pick(pool.source, indices)
      ensures old(first) ==> indices == old(indices)
      ensures old(first) && K() == 0 ==> pool.len == old(pool.len)
      ensures old(first) && K() > 0 ==> (r.Some? <==> |pool.source| > 0)
      ensures !old(first) ==> !first && match Successor(old(indices), |pool.source|)
                                        case None => r.None?
                                        case Some(u) => indices == u
      ensures pool.len <= old(pool.len) + 1
    {
      if first {
        var proceed := |indices| == 0;
        if !proceed {
          proceed := pool.GetNext();
        }
        if !proceed {
          return None;
        }
        first := false;
        FirstIsMulticombination(K(), pool.len);
      } else {
        var found := Advance();
        if !found {
          return None;
        }
      }
      PickPrefix(pool.source, pool.len, indices);
      r := Some(CollectToVec(Window()));
    }

    /** `next` of `combinations_with_replacement_map`. */
    method NextMap<R>(manager: MapSlice<T, R>) returns (r: Option<R>)
      requires Valid() && manager.vec == []
      modifies this, pool, manager
      ensures Valid() && manager.vec == [] && K() == old(K())
      ensures r.None? <==> old(Exhausted())
      ensures r.None? ==> Exhausted() && indices == old(indices)
      ensures r.Some? ==> !first && manager.seen == Pick(pool.source, indices) && r.value == manager.func(manager.seen)
      ensures old(first) ==> indices == old(indices)
      ensures old(first) && K() == 0 ==> pool.len == old(pool.len)
      ensures old(first) && K() > 0 ==> (r.Some? <==> |pool.source| > 0)
      ensures !old(first) ==> !first && match Successor(old(indices), |pool.source|)
                                        case None => r.None?
                                        case Some(u) => indices == u
      ensures pool.len <= old(pool.len) + 1
    {
      var window := Next();
      if window.Some? {
        var y := manager.NewItem(window.value);
        r := Some(y);
      } else {
        r := None;
      }
    }
  }
}
