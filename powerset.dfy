/**
 * `PowersetBase`: every subset of the source's positions, by increasing
 * size and lexicographically within one size, driven by one
 * `CombinationsBase` whose size is bumped through `reset`.
 */
module Powerset {
  import opened Wrappers
  import opened IndexTuples
  import opened LazyBuffers
  import opened VecItems
  import opened Combinations

  /** `usize::MAX` on a 64-bit target, where `pos` saturates. */
  const USIZE_MAX: nat := 0xFFFF_FFFF_FFFF_FFFF

  /** `usize::saturating_add(1)`. */
  function SaturatingInc(x: nat): (r: nat)
    requires x <= USIZE_MAX
    ensures r <= USIZE_MAX
    ensures x < USIZE_MAX ==> r == x + 1
    ensures x == USIZE_MAX ==> r == x
  {
    if x < USIZE_MAX then x + 1 else x
  }

  /** Shorter subsets first; lexicographic within one size. */
  ghost predicate ShortLexLess(a: seq<nat>, b: seq<nat>) {
    |a| < |b| || (|a| == |b| && LexLess(a, b))
  }

  ghost predicate ShortLexLessEq(a: seq<nat>, b: seq<nat>) {
    a == b || ShortLexLess(a, b)
  }

  /**
   * The subset that follows `t` over `n` items: the next combination of
   * the same size, else the first combination one larger, else `None`.
   */
  function NextSubset(t: seq<nat>, n: nat): Option<seq<nat>> {
    match Combinations.Successor(t, n)
    case Some(u) => Some(u)
    case None => if |t| < n then Some(Ascending(0, |t| + 1)) else None
  }

  /** The empty subset, yielded first, precedes every subset. */
  lemma EmptyIsLeast(v: seq<nat>)
    ensures ShortLexLessEq([], v)
  {
  }

  /**
   * The successor is a subset above `t`, and no subset lies strictly
   * between them; so the subsets come out once each, in order.
   */
  lemma NextSubsetIsNext(t: seq<nat>, v: seq<nat>, n: nat)
    requires IsCombination(t, n) && IsCombination(v, n) && ShortLexLess(t, v)
    ensures NextSubset(t, n).Some?
    ensures IsCombination(NextSubset(t, n).value, n)
    ensures ShortLexLess(t, NextSubset(t, n).value)
    ensures ShortLexLessEq(NextSubset(t, n).value, v)
  {
    if |v| == |t| {
      Combinations.SuccessorIsNext(t, v, n);
      SuccessorIsCombination(t, n);
    } else if Combinations.Successor(t, n).Some? {
      SuccessorIsCombination(t, n);
    } else {
      CombinationFits(v, n);
      FirstIsCombination(|t| + 1, n);
      if |v| == |t| + 1 {
        FirstIsLeast(v, n);
      }
    }
  }

  /** `next` ends the powerset exactly after the full set `[0, ..., n-1]`. */
  lemma NextSubsetNoneIsLast(t: seq<nat>, n: nat)
    requires IsCombination(t, n)
    ensures NextSubset(t, n).None? <==> t == Ascending(0, n)
  {
    Combinations.SuccessorNoneIsLast(t, n);
    CombinationFits(t, n);
  }

  /** Where a powerset stands between calls. */
  datatype Progress = NotStarted | At(subset: seq<nat>) | Done

  class PowersetBase<T> {
    const combs: CombinationsBase<T>
    /** The count of yielded subsets, saturating at `usize::MAX`. */
    var pos: nat

    ghost predicate Valid()
      reads this, combs, combs.pool
    {
      && combs.Valid()
      && (combs.first ==> combs.K() == 0 || combs.K() > |combs.pool.source|)
      && pos <= USIZE_MAX
    }

    ghost function Progress(): Progress
      reads this, combs
    {
      if !combs.first then At(combs.indices)
      else if combs.K() == 0 then NotStarted
      else Done
    }

    /** Every further `next` returns `None`. */
    ghost predicate Finished()
      reads this, combs, combs.pool
    {
      match Progress()
      case NotStarted => false
      case At(t) => NextSubset(t, |combs.pool.source|).None?
      case Done => true
    }

    /** `powerset(src)`: combinations of size 0 and no subset yielded. */
    constructor (source: seq<T>)
      ensures Valid() && fresh(combs) && fresh(combs.pool)
      ensures combs.pool.source == source && pos == 0 && Progress() == NotStarted
    {
      combs := new CombinationsBase(source, 0);
      pos := 0;
    }

    /** `next`: the next subset of buffered items, or `None`. */
    method Next() returns (r: Option<seq<T>>)
      requires Valid()
      modifies this, combs, combs.pool
      ensures Valid()
      ensures old(Progress()) == NotStarted ==> r == Some([]) && Progress() == At([])
      ensures old(Progress()).At? ==>
        match NextSubset(old(Progress()).subset, |combs.pool.source|)
        case Some(u) => Progress() == At(u) && r == Some(Pick(combs.pool.source, u))
        case None => r.None?
      ensures r.None? <==> old(Finished())
      ensures r.None? ==> Finished()
      ensures pos == if r.Some? then SaturatingInc(old(pos)) else old(pos)
    {
      ghost var n := |combs.pool.source|;
      ghost var t := combs.indices;
      var elt := combs.Next();
      if elt.Some? {
        pos := SaturatingInc(pos);
        return elt;
      }
      if combs.K() < combs.N() || combs.K() == 0 {
        combs.Reset(combs.K() + 1);
        FirstIsCombination(combs.K(), n);
        elt := combs.Next();
        if elt.Some? {
          pos := SaturatingInc(pos);
        }
        r := elt;
      } else {
        r := None;
      }
    }

    /** `next` of `powerset_map`. */
    method NextMap<R>(manager: MapSlice<T, R>) returns (r: Option<R>)
      requires Valid() && manager.vec == []
      modifies this, combs, combs.pool, manager
      ensures Valid() && manager.vec == []
      ensures old(Progress()) == NotStarted ==> r.Some? && Progress() == At([])
      ensures old(Progress()).At? ==>
        match NextSubset(old(Progress()).subset, |combs.pool.source|)
        case Some(u) => Progress() == At(u) && r.Some?
        case None => r.None?
      ensures r.None? <==> old(Finished())
      ensures r.None? ==> Finished()
      ensures r.Some? ==> Progress().At? && manager.seen == Pick(combs.pool.source, Progress().subset)
      ensures r.Some? ==> r.value == manager.func(manager.seen)
      ensures pos == if r.Some? then SaturatingInc(old(pos)) else old(pos)
    {
      var window := Next();
      if window.Some? {
        var y := manager.NewItem(window.value);
        r := Some(y);
      } else {
        r := None;
      }
    }
  }
}
