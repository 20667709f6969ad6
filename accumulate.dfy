/**
 * `AccumulateFrom`: a prefix scan that yields `init` and then every
 * successive value of folding `func` over the source.
 */
module Accumulate {
  import opened Wrappers

  /** The left fold of `func` over `items`, starting from `init`. */
  function FoldLeft<T, B>(func: (B, T) -> B, init: B, items: seq<T>): B
    decreases |items|
  {
    if |items| == 0 then init
    else func(FoldLeft(func, init, items[..|items| - 1]), items[|items| - 1])
  }

  class AccumulateFrom<T, B> {
    /** Every item the source iterator will produce. */
    const source: seq<T>
    /** How many source items have been pulled. */
    var pos: nat
    var accum: Option<B>
    const func: (B, T) -> B
    ghost const init: B
    /** How many values `next` has yielded. */
    ghost var yielded: nat

    ghost predicate Valid()
      reads this
    {
      && pos <= |source|
      && (accum.Some? ==> accum.value == FoldLeft(func, init, source[..pos]) && yielded == pos)
      && (accum.None? ==> pos == |source| && yielded == |source| + 1)
    }

    /** `accumulate_from(iter, init, func)`. */
    constructor (source: seq<T>, init: B, func: (B, T) -> B)
      ensures Valid()
      ensures this.source == source && this.init == init && this.func == func
      ensures accum == Some(init) && pos == 0 && yielded == 0
    {
      this.source := source;
      this.init := init;
      this.func := func;
      accum := Some(init);
      pos := 0;
      yielded := 0;
    }

    /**
     * `next`: the previous state, after folding in the next source item;
     * at the end of the source the final state, leaving `accum` empty.
     */
    method Next() returns (r: Option<B>)
      requires Valid()
      modifies this
      ensures Valid()
      ensures old(accum).None? ==> r.None? && accum.None?
      ensures old(accum).Some? ==> r == old(accum)
      ensures old(accum).Some? && old(pos) < |source| ==>
                accum == Some(func(old(accum).value, source[old(pos)])) && pos == old(pos) + 1
      ensures old(accum).Some? && old(pos) == |source| ==> accum.None?
      ensures r.Some? <==> old(yielded) <= |source|
      ensures r.Some? ==> r.value == FoldLeft(func, init, source[..old(yielded)])
      ensures r.Some? ==> r.value == Scan(func, init, source)[old(yielded)]
      ensures yielded == if r.Some? then old(yielded) + 1 else old(yielded)
    {
      if accum.None? {
        return None;
      }
      var acc := accum.value;
      if pos < |source| {
        var item := source[pos];
        pos := pos + 1;
        var b := func(acc, item);
        assert source[..pos] == source[..pos - 1] + [item];
        FoldLeftSnoc(func, init, source[..pos - 1], item);
        r := accum;
        accum := Some(b);
      } else {
        r := accum;
        accum := None;
      }
      yielded := yielded + 1;
    }

    /** `size_hint`: exact, since the source is finite and its length known. */
    function SizeHint(): (r: (nat, Option<nat>))
      reads this
      requires Valid()
      ensures r.1 == Some(r.0)
      ensures r.0 == |source| + 1 - yielded
    {
      if accum.None? then (0, Some(0))
      else
        var rest := |source| - pos;
        (rest + 1, Some(rest + 1))
    }
  }

  /** The `j`-th value of the scan of `[x]` after `items` folds `x` into the `j-1`-th. */
  lemma {:induction false} FoldLeftSnoc<T, B>(func: (B, T) -> B, init: B, items: seq<T>, x: T)
    ensures FoldLeft(func, init, items + [x]) == func(FoldLeft(func, init, items), x)
  {
    assert (items + [x])[..|items|] == items;
  }

  /**
   * The whole output of the adaptor over `items`, built step by step:
   * `init`, then each new value folds the next item into the last one.
   */
  function Scan<T, B>(func: (B, T) -> B, init: B, items: seq<T>): (r: seq<B>)
    ensures |r| == |items| + 1
    ensures forall j :: 0 <= j <= |items| ==> r[j] == FoldLeft(func, init, items[..j])
    decreases |items|
  {
    if |items| == 0 then [init]
    else
      var front := items[..|items| - 1];
      var before := Scan(func, init, front);
      assert forall j :: 0 <= j < |items| ==> items[..j] == front[..j];
      assert items[..|items|] == items && front[..|front|] == front;
      before + [func(before[|before| - 1], items[|items| - 1])]
  }
}
