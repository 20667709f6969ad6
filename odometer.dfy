/**
 * Mixed-radix digit vectors: the position of a multi-product in its
 * enumeration, the odometer increment, and the nested-loop cartesian
 * product they index.
 */
module Odometer {
  import opened Wrappers

  /** The product of the radices: how many digit vectors there are. */
  function Prod(r: seq<nat>): nat
    decreases |r|
  {
    if |r| == 0 then 1 else Prod(r[..|r| - 1]) * r[|r| - 1]
  }

  /** Every digit is below its radix. */
  ghost predicate InRange(d: seq<nat>, r: seq<nat>) {
    |d| == |r| && forall i :: 0 <= i < |d| ==> d[i] < r[i]
  }

  /** The rank of `d` in odometer order: the last digit varies fastest. */
  function Rank(d: seq<nat>, r: seq<nat>): nat
    requires |d| == |r|
    decreases |d|
  {
    if |d| == 0 then 0 else Rank(d[..|d| - 1], r[..|r| - 1]) * r[|r| - 1] + d[|d| - 1]
  }

  /** The odometer step: bump the last digit, carrying leftwards; `None` past the end. */
  function Increment(d: seq<nat>, r: seq<nat>): (e: Option<seq<nat>>)
    requires |d| == |r|
    ensures e.Some? ==> |e.value| == |d|
    decreases |d|
  {
    if |d| == 0 then None
    else if d[|d| - 1] + 1 < r[|r| - 1] then Some(d[..|d| - 1] + [d[|d| - 1] + 1])
    else match Increment(d[..|d| - 1], r[..|r| - 1])
      case None => None
      case Some(e) => Some(e + [0])
  }

  lemma MulLe(a: nat, b: nat, c: nat)
    requires a <= b
    ensures a * c <= b * c
  {
  }

  /** There are no empty radices exactly when some digit vector exists. */
  lemma {:induction false} ProdPositive(r: seq<nat>)
    ensures Prod(r) > 0 <==> forall i :: 0 <= i < |r| ==> r[i] > 0
    decreases |r|
  {
    if |r| > 0 {
      var pre := r[..|r| - 1];
      ProdPositive(pre);
      assert forall i :: 0 <= i < |pre| ==> pre[i] == r[i];
    }
  }

  /** A digit vector in range ranks below the number of vectors. */
  lemma {:induction false} RankBelowProd(d: seq<nat>, r: seq<nat>)
    requires InRange(d, r)
    ensures Rank(d, r) < Prod(r)
    decreases |d|
  {
    if |d| > 0 {
      var dp, rp := d[..|d| - 1], r[..|r| - 1];
      var last := r[|r| - 1];
      RankBelowProd(dp, rp);
      MulLe(Rank(dp, rp), Prod(rp) - 1, last);
      assert (Prod(rp) - 1) * last == Prod(rp) * last - last;
    }
  }

  /** All zeros: the first vector, of rank 0. */
  lemma {:induction false} ZerosRankZero(r: seq<nat>)
    ensures Rank(seq(|r|, i => 0), r) == 0
    decreases |r|
  {
    if |r| > 0 {
      assert seq(|r|, i => 0)[..|r| - 1] == seq(|r| - 1, i => 0);
      ZerosRankZero(r[..|r| - 1]);
    }
  }

  lemma MulPred(p: nat, c: nat)
    requires p >= 1
    ensures (p - 1) * c == p * c - c
  {
  }

  lemma MulSucc(p: nat, c: nat)
    ensures (p + 1) * c == p * c + c
  {
  }

  /** The last digit steps without a carry. */
  lemma {:induction false} IncrementNoCarry(d: seq<nat>, r: seq<nat>)
    requires InRange(d, r) && |d| > 0 && d[|d| - 1] + 1 < r[|r| - 1]
    ensures Increment(d, r) == Some(d[..|d| - 1] + [d[|d| - 1] + 1])
    ensures Rank(d, r) + 1 < Prod(r)
    ensures InRange(Increment(d, r).value, r)
    ensures Rank(Increment(d, r).value, r) == Rank(d, r) + 1
  {
    var n := |d|;
    var dp, rp := d[..n - 1], r[..n - 1];
    var last := r[n - 1];
    var e := dp + [d[n - 1] + 1];
    assert e[..n - 1] == dp;
    assert InRange(dp, rp);
    var rk, p := Rank(dp, rp), Prod(rp);
    assert rk < p by { RankBelowProd(dp, rp); }
    assert rk * last <= p * last - last by {
      MulLe(rk, p - 1, last);
      MulPred(p, last);
    }
  }

  /** The last digit wraps to 0 and the carry goes to the prefix. */
  lemma {:induction false} IncrementCarry(d: seq<nat>, r: seq<nat>)
    requires InRange(d, r) && |d| > 0 && d[|d| - 1] + 1 == r[|r| - 1]
    ensures Increment(d, r).Some? <==> Rank(d, r) + 1 < Prod(r)
    ensures Increment(d, r).Some? ==> InRange(Increment(d, r).value, r)
    ensures Increment(d, r).Some? ==> Rank(Increment(d, r).value, r) == Rank(d, r) + 1
    decreases |d|, 0
  {
    var n := |d|;
    var dp, rp := d[..n - 1], r[..n - 1];
    var last := r[n - 1];
    assert InRange(dp, rp);
    IncrementRank(dp, rp);
    var rk, p := Rank(dp, rp), Prod(rp);
    assert rk < p by { RankBelowProd(dp, rp); }
    assert Rank(d, r) + 1 == (rk + 1) * last by { MulSucc(rk, last); }
    if rk + 1 < p {
      assert (rk + 1) * last < p * last by {
        MulLe(rk + 2, p, last);
        MulSucc(rk + 1, last);
      }
      var e' := Increment(dp, rp).value;
      var e := e' + [0];
      assert e[..n - 1] == e';
      assert Increment(d, r) == Some(e);
    }
  }

  /**
   * The odometer step moves to the vector of the next rank, and fails
   * exactly on the last vector.
   */
  lemma {:induction false} IncrementRank(d: seq<nat>, r: seq<nat>)
    requires InRange(d, r)
    ensures Increment(d, r).Some? <==> Rank(d, r) + 1 < Prod(r)
    ensures Increment(d, r).Some? ==> InRange(Increment(d, r).value, r)
    ensures Increment(d, r).Some? ==> Rank(Increment(d, r).value, r) == Rank(d, r) + 1
    decreases |d|, 1
  {
    if |d| > 0 {
      if d[|d| - 1] + 1 < r[|r| - 1] {
        IncrementNoCarry(d, r);
      } else {
        IncrementCarry(d, r);
      }
    }
  }

  /** The radices of a list of lanes: their lengths. */
  function Lens<T>(ls: seq<seq<T>>): (r: seq<nat>)
    ensures |r| == |ls| && forall i :: 0 <= i < |ls| ==> r[i] == |ls[i]|
  {
    seq(|ls|, i requires 0 <= i < |ls| => |ls[i]|)
  }

  /** Each tuple of `ts`, extended by each item of `xs`: the inner loop. */
  function Extend<T>(ts: seq<seq<T>>, xs: seq<T>): (r: seq<seq<T>>)
    ensures |r| == |ts| * |xs|
    decreases |ts|
  {
    if |ts| == 0 then []
    else seq(|xs|, j requires 0 <= j < |xs| => ts[0] + [xs[j]]) + Extend(ts[1..], xs)
  }

  /**
   * The cartesian product as nested loops, lane 0 outermost and the last
   * lane innermost; the product of no lanes is the single empty tuple.
   */
  function Product<T>(ls: seq<seq<T>>): seq<seq<T>>
    decreases |ls|
  {
    if |ls| == 0 then [[]] else Extend(Product(ls[..|ls| - 1]), ls[|ls| - 1])
  }

  /** The tuple that picks item `d[i]` of lane `i`. */
  function TupleAt<T>(ls: seq<seq<T>>, d: seq<nat>): (t: seq<T>)
    requires InRange(d, Lens(ls))
    ensures |t| == |ls| && forall i :: 0 <= i < |ls| ==> t[i] == ls[i][d[i]]
  {
    seq(|d|, i requires 0 <= i < |d| && InRange(d, Lens(ls)) => ls[i][d[i]])
  }

  lemma {:induction false} ExtendAt<T>(ts: seq<seq<T>>, xs: seq<T>, a: nat, b: nat)
    requires a < |ts| && b < |xs|
    ensures a * |xs| + b < |Extend(ts, xs)|
    ensures Extend(ts, xs)[a * |xs| + b] == ts[a] + [xs[b]]
    decreases a
  {
    MulLe(a + 1, |ts|, |xs|);
    if a > 0 {
      ExtendAt(ts[1..], xs, a - 1, b);
      assert a * |xs| + b == |xs| + ((a - 1) * |xs| + b);
    }
  }

  /** The nested loops hold `Prod(Lens(ls))` tuples. */
  lemma {:induction false} ProductSize<T>(ls: seq<seq<T>>)
    ensures |Product(ls)| == Prod(Lens(ls))
    decreases |ls|
  {
    if |ls| > 0 {
      var pre := ls[..|ls| - 1];
      ProductSize(pre);
      assert Lens(ls)[..|ls| - 1] == Lens(pre);
    }
  }

  /** The tuple of rank `Rank(d)` in the nested loops is the one `d` picks. */
  lemma {:induction false} ProductAt<T>(ls: seq<seq<T>>, d: seq<nat>)
    requires InRange(d, Lens(ls))
    ensures Rank(d, Lens(ls)) < |Product(ls)|
    ensures Product(ls)[Rank(d, Lens(ls))] == TupleAt(ls, d)
    decreases |ls|
  {
    ProductSize(ls);
    RankBelowProd(d, Lens(ls));
    if |ls| > 0 {
      var n := |ls|;
      var pre, dp := ls[..n - 1], d[..n - 1];
      assert Lens(ls)[..n - 1] == Lens(pre);
      assert InRange(dp, Lens(pre));
      ProductAt(pre, dp);
      ProductAtLast(ls, d);
    }
  }

  /** The inductive step of `ProductAt`: extend by the innermost lane. */
  lemma ProductAtLast<T>(ls: seq<seq<T>>, d: seq<nat>)
    requires InRange(d, Lens(ls)) && |ls| > 0
    requires InRange(d[..|ls| - 1], Lens(ls[..|ls| - 1]))
    requires Rank(d[..|ls| - 1], Lens(ls[..|ls| - 1])) < |Product(ls[..|ls| - 1])|
    requires Product(ls[..|ls| - 1])[Rank(d[..|ls| - 1], Lens(ls[..|ls| - 1]))] == TupleAt(ls[..|ls| - 1], d[..|ls| - 1])
    requires Lens(ls)[..|ls| - 1] == Lens(ls[..|ls| - 1])
    ensures Rank(d, Lens(ls)) < |Product(ls)|
    ensures Product(ls)[Rank(d, Lens(ls))] == TupleAt(ls, d)
  {
    var n := |ls|;
    var pre, dp := ls[..n - 1], d[..n - 1];
    var rk := Rank(dp, Lens(pre));
    assert Rank(d, Lens(ls)) == rk * |ls[n - 1]| + d[n - 1];
    ExtendAt(Product(pre), ls[n - 1], rk, d[n - 1]);
    assert TupleAt(ls, d) == TupleAt(pre, dp) + [ls[n - 1][d[n - 1]]];
  }
}
