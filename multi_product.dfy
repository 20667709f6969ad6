/**
 * The n-ary cartesian product adaptor: one lane per input sequence, each
 * holding the item it currently contributes, its remaining iterator and a
 * pristine copy to restart from; `IterateLast` advances the lanes like an
 * odometer.
 */
module MultiProduct {
  import opened Wrappers
  import opened Odometer
  import opened VecItems

  /**
   * One lane (`MultiProductIter`): `cur` is the item last drawn, the
   * remaining iterator is `orig[pos..]`, and `orig` is the copy kept for
   * `reset`.
   */
  datatype Lane<T> = Lane(cur: Option<T>, pos: nat, orig: seq<T>) {
    /** Draw the next item of the remaining iterator into `cur`. */
    function Iterate(): (l: Lane<T>)
      ensures l.orig == orig
      ensures pos < |orig| ==> l == Lane(Some(orig[pos]), pos + 1, orig)
      ensures pos >= |orig| ==> l == Lane(None, pos, orig)
    {
      if pos < |orig| then Lane(Some(orig[pos]), pos + 1, orig) else Lane(None, pos, orig)
    }

    /** Restart the remaining iterator from the copy; `cur` is kept. */
    function Reset(): (l: Lane<T>)
      ensures l.cur == cur && l.pos == 0 && l.orig == orig
    {
      Lane(cur, 0, orig)
    }

    predicate InProgress() {
      cur.Some?
    }

    /** `iter.count()`: how many items the remaining iterator still holds. */
    function RemainingCount(): (c: nat)
      ensures pos <= |orig| ==> c == |orig| - pos
    {
      if pos <= |orig| then |orig| - pos else 0
    }

    /** `iter.last()`: the last item of the remaining iterator. */
    function RemainingLast(): (x: Option<T>)
      ensures x.Some? <==> pos < |orig|
      ensures x.Some? ==> x.value == orig[|orig| - 1]
    {
      if pos < |orig| then Some(orig[|orig| - 1]) else None
    }

    /** A lane's iterator stays within its copy, and `cur` is the item just drawn. */
    ghost predicate Valid() {
      pos <= |orig| && (cur.Some? ==> 1 <= pos && cur.value == orig[pos - 1])
    }
  }

  /** `MultiProductIter::new`: nothing drawn yet, the whole sequence remaining. */
  function NewLane<T>(orig: seq<T>): (l: Lane<T>)
    ensures l.Valid() && !l.InProgress() && l.RemainingCount() == |orig|
  {
    Lane(None, 0, orig)
  }

  /** A lane that has drawn item `k` of `orig` (or, past the end, run dry). */
  function LaneAt<T>(orig: seq<T>, k: nat): (l: Lane<T>)
    ensures l.Valid() && l.orig == orig
    ensures k < |orig| ==> l.cur == Some(orig[k]) && l.pos == k + 1
  {
    if k < |orig| then Lane(Some(orig[k]), k + 1, orig) else Lane(None, |orig|, orig)
  }

  datatype IterState = StartOfIter | MidIter(onFirstIter: bool)

  /**
   * `iterate_last`: step the rightmost lane, and when it runs dry advance
   * the lanes to its left and restart it. Returns whether every lane
   * holds an item afterwards, and the new lanes.
   */
  function IterateLast<T>(lanes: seq<Lane<T>>, state: IterState): (res: (bool, seq<Lane<T>>))
    ensures |res.1| == |lanes|
    ensures forall i :: 0 <= i < |lanes| ==> res.1[i].orig == lanes[i].orig
    decreases |lanes|
  {
    if |lanes| == 0 then
      (state.MidIter? && state.onFirstIter, [])
    else
      var last, rest := lanes[|lanes| - 1], lanes[..|lanes| - 1];
      var onFirstIter := if state.StartOfIter? then !last.InProgress() else state.onFirstIter;
      var stepped := if onFirstIter then last else last.Iterate();
      if stepped.InProgress() then
        (true, rest + [stepped])
      else
        var (ok, rest') := IterateLast(rest, MidIter(onFirstIter));
        if ok then
          var restarted := stepped.Reset().Iterate();
          (restarted.InProgress(), rest' + [restarted])
        else
          (false, rest' + [stepped])
  }

  /** `MultiProductBase::in_progress`: the rightmost lane holds an item. */
  predicate InProgressOf<T>(lanes: seq<Lane<T>>) {
    |lanes| > 0 && lanes[|lanes| - 1].InProgress()
  }

  ghost predicate AllInProgress<T>(lanes: seq<Lane<T>>) {
    forall i :: 0 <= i < |lanes| ==> lanes[i].cur.Some?
  }

  ghost predicate AllIdle<T>(lanes: seq<Lane<T>>) {
    forall i :: 0 <= i < |lanes| ==> lanes[i].cur.None?
  }

  /**
   * The states `next` can reach: every lane valid, the lanes holding an
   * item form a prefix, and a lane left idle right after a busy one has
   * an empty sequence.
   */
  ghost predicate LanesValid<T>(lanes: seq<Lane<T>>) {
    && (forall i :: 0 <= i < |lanes| ==> lanes[i].Valid())
    && (forall i, j :: 0 <= i < j < |lanes| && lanes[j].cur.Some? ==> lanes[i].cur.Some?)
    && (forall i :: 0 < i < |lanes| && lanes[i - 1].cur.Some? && lanes[i].cur.None? ==> |lanes[i].orig| == 0)
  }

  function Origs<T>(lanes: seq<Lane<T>>): (o: seq<seq<T>>)
    ensures |o| == |lanes| && forall i :: 0 <= i < |lanes| ==> o[i] == lanes[i].orig
  {
    seq(|lanes|, i requires 0 <= i < |lanes| => lanes[i].orig)
  }

  /** For busy lanes: the index of each lane's current item in its sequence. */
  function Digits<T>(lanes: seq<Lane<T>>): (d: seq<nat>)
    ensures |d| == |lanes|
    ensures forall i :: 0 <= i < |lanes| && lanes[i].pos > 0 ==> d[i] == lanes[i].pos - 1
  {
    seq(|lanes|, i requires 0 <= i < |lanes| => if lanes[i].pos > 0 then lanes[i].pos - 1 else 0)
  }

  /** The lanes standing at digit vector `e`. */
  function LanesAt<T>(origs: seq<seq<T>>, e: seq<nat>): (lanes: seq<Lane<T>>)
    requires |e| == |origs|
    ensures |lanes| == |origs| && forall i :: 0 <= i < |origs| ==> lanes[i] == LaneAt(origs[i], e[i])
  {
    seq(|origs|, i requires 0 <= i < |origs| => LaneAt(origs[i], e[i]))
  }

  /** The lanes after the last tuple: idle, every iterator used up. */
  function Drained<T>(origs: seq<seq<T>>): (lanes: seq<Lane<T>>)
    ensures |lanes| == |origs| && forall i :: 0 <= i < |origs| ==> lanes[i] == Lane(None, |origs[i]|, origs[i])
  {
    seq(|origs|, i requires 0 <= i < |origs| => Lane(None, |origs[i]|, origs[i]))
  }

  /** The items the lanes currently hold. */
  function Current<T>(lanes: seq<Lane<T>>): (t: seq<T>)
    requires AllInProgress(lanes)
    ensures |t| == |lanes| && forall i :: 0 <= i < |lanes| ==> t[i] == lanes[i].cur.value
  {
    seq(|lanes|, i requires 0 <= i < |lanes| && AllInProgress(lanes) => lanes[i].cur.value)
  }

  /** Every lane is valid and holds an item. */
  ghost predicate AllBusy<T>(lanes: seq<Lane<T>>) {
    forall i :: 0 <= i < |lanes| ==> lanes[i].Valid() && lanes[i].cur.Some?
  }

  /** Busy valid lanes stand at their digits, which are in range. */
  lemma BusyLanesAtDigits<T>(lanes: seq<Lane<T>>)
    requires AllBusy(lanes)
    ensures InRange(Digits(lanes), Lens(Origs(lanes)))
    ensures LanesAt(Origs(lanes), Digits(lanes)) == lanes
  {
    assert forall i :: 0 <= i < |lanes| ==> 0 < lanes[i].pos <= |lanes[i].orig|;
  }

  lemma LanesAtSnoc<T>(origs: seq<seq<T>>, e: seq<nat>, x: nat)
    requires |e| + 1 == |origs|
    ensures LanesAt(origs, e + [x]) == LanesAt(origs[..|e|], e) + [LaneAt(origs[|e|], x)]
  {
  }

  lemma DrainedSnoc<T>(origs: seq<seq<T>>)
    requires |origs| > 0
    ensures Drained(origs) == Drained(origs[..|origs| - 1]) + [Lane(None, |origs[|origs| - 1]|, origs[|origs| - 1])]
  {
  }

  lemma PrefixShapes<T>(lanes: seq<Lane<T>>)
    requires |lanes| > 0
    ensures Digits(lanes[..|lanes| - 1]) == Digits(lanes)[..|lanes| - 1]
    ensures Origs(lanes[..|lanes| - 1]) == Origs(lanes)[..|lanes| - 1]
    ensures Lens(Origs(lanes[..|lanes| - 1])) == Lens(Origs(lanes))[..|lanes| - 1]
  {
  }

  /**
   * With every lane busy and the rightmost one stepping, `IterateLast` is
   * the odometer increment of the digits; past the last vector every
   * lane is drained.
   */
  lemma {:induction false} CarryStep<T>(lanes: seq<Lane<T>>)
    requires AllBusy(lanes)
    ensures InRange(Digits(lanes), Lens(Origs(lanes)))
    ensures Increment(Digits(lanes), Lens(Origs(lanes))).Some? ==>
      IterateLast(lanes, MidIter(false)) == (true, LanesAt(Origs(lanes), Increment(Digits(lanes), Lens(Origs(lanes))).value))
    ensures Increment(Digits(lanes), Lens(Origs(lanes))).None? ==>
      IterateLast(lanes, MidIter(false)) == (false, Drained(Origs(lanes)))
    decreases |lanes|, 1
  {
    BusyLanesAtDigits(lanes);
    if |lanes| > 0 {
      var last := lanes[|lanes| - 1];
      if last.pos < |last.orig| {
        CarryNoWrap(lanes);
      } else {
        CarryWrap(lanes);
      }
    }
  }

  /** The rightmost lane steps to its next item. */
  lemma CarryNoWrap<T>(lanes: seq<Lane<T>>)
    requires AllBusy(lanes) && |lanes| > 0
    requires lanes[|lanes| - 1].pos < |lanes[|lanes| - 1].orig|
    ensures InRange(Digits(lanes), Lens(Origs(lanes)))
    ensures Increment(Digits(lanes), Lens(Origs(lanes))).Some?
    ensures IterateLast(lanes, MidIter(false)) == (true, LanesAt(Origs(lanes), Increment(Digits(lanes), Lens(Origs(lanes))).value))
  {
    var n := |lanes|;
    var last, rest := lanes[n - 1], lanes[..n - 1];
    var d, r, o := Digits(lanes), Lens(Origs(lanes)), Origs(lanes);
    BusyLanesAtDigits(lanes);
    PrefixShapes(lanes);
    assert AllBusy(rest);
    BusyLanesAtDigits(rest);
    var stepped := last.Iterate();
    assert stepped == LaneAt(o[n - 1], d[n - 1] + 1);
    assert IterateLast(lanes, MidIter(false)) == (true, rest + [stepped]);
    assert Increment(d, r) == Some(d[..n - 1] + [d[n - 1] + 1]);
    LanesAtSnoc(o, d[..n - 1], d[n - 1] + 1);
  }

  /** The rightmost lane runs dry: the carry goes left and the lane restarts. */
  lemma {:induction false} CarryWrap<T>(lanes: seq<Lane<T>>)
    requires AllBusy(lanes) && |lanes| > 0
    requires lanes[|lanes| - 1].pos == |lanes[|lanes| - 1].orig|
    ensures InRange(Digits(lanes), Lens(Origs(lanes)))
    ensures Increment(Digits(lanes), Lens(Origs(lanes))).Some? ==>
      IterateLast(lanes, MidIter(false)) == (true, LanesAt(Origs(lanes), Increment(Digits(lanes), Lens(Origs(lanes))).value))
    ensures Increment(Digits(lanes), Lens(Origs(lanes))).None? ==>
      IterateLast(lanes, MidIter(false)) == (false, Drained(Origs(lanes)))
    decreases |lanes|, 0
  {
    var n := |lanes|;
    var last, rest := lanes[n - 1], lanes[..n - 1];
    var d, r, o := Digits(lanes), Lens(Origs(lanes)), Origs(lanes);
    BusyLanesAtDigits(lanes);
    PrefixShapes(lanes);
    assert AllBusy(rest);
    var stepped := last.Iterate();
    assert !stepped.InProgress();
    var restarted := stepped.Reset().Iterate();
    assert restarted == LaneAt(o[n - 1], 0);
    CarryStep(rest);
    var inner := IterateLast(rest, MidIter(false));
    if inner.0 {
      assert IterateLast(lanes, MidIter(false)) == (true, inner.1 + [restarted]);
      var e' := Increment(d[..n - 1], r[..n - 1]).value;
      assert Increment(d, r) == Some(e' + [0]);
      LanesAtSnoc(o, e', 0);
    } else {
      assert IterateLast(lanes, MidIter(false)) == (false, inner.1 + [stepped]);
      assert Increment(d, r) == None;
      DrainedSnoc(o);
    }
  }

  /** The first lane from `p` on with an empty sequence, or `|lanes|`. */
  function FirstEmpty<T>(lanes: seq<Lane<T>>, p: nat): (e: nat)
    requires p <= |lanes|
    ensures p <= e <= |lanes|
    ensures forall i :: p <= i < e ==> |lanes[i].orig| > 0
    ensures e < |lanes| ==> |lanes[e].orig| == 0
    decreases |lanes| - p
  {
    if p == |lanes| then p else if |lanes[p].orig| == 0 then p else FirstEmpty(lanes, p + 1)
  }

  /**
   * With lanes `0..p` busy and the rest idle, and no lane stepping yet,
   * `IterateLast` restarts the idle lanes from the left up to and
   * including the first empty one, lane `e`, and succeeds when there is
   * none.
   */
  lemma {:induction false} RestartStep<T>(lanes: seq<Lane<T>>, p: nat, e: nat)
    requires p <= e <= |lanes|
    requires forall i :: 0 <= i < p ==> lanes[i].cur.Some?
    requires forall i :: p <= i < |lanes| ==> lanes[i].cur.None?
    requires forall i :: p <= i < e ==> |lanes[i].orig| > 0
    requires e < |lanes| ==> |lanes[e].orig| == 0
    ensures IterateLast(lanes, MidIter(true)).0 == (e == |lanes|)
    ensures forall i :: 0 <= i < p ==> IterateLast(lanes, MidIter(true)).1[i] == lanes[i]
    ensures forall i :: p <= i <= e && i < |lanes| ==> IterateLast(lanes, MidIter(true)).1[i] == lanes[i].Reset().Iterate()
    ensures forall i :: e < i < |lanes| ==> IterateLast(lanes, MidIter(true)).1[i] == lanes[i]
    decreases |lanes|
  {
    var n := |lanes|;
    if n > 0 {
      var last, rest := lanes[n - 1], lanes[..n - 1];
      if n == p {
        assert IterateLast(lanes, MidIter(true)) == (true, rest + [last]);
        assert rest + [last] == lanes;
      } else {
        var e' := if e < n - 1 then e else n - 1;
        RestartStep(rest, p, e');
        var inner := IterateLast(rest, MidIter(true));
        var restarted := last.Reset().Iterate();
        if inner.0 {
          assert IterateLast(lanes, MidIter(true)) == (restarted.InProgress(), inner.1 + [restarted]);
        } else {
          assert IterateLast(lanes, MidIter(true)) == (false, inner.1 + [last]);
        }
      }
    }
  }

  /** The first lane from `q` on holding no item, or `|lanes|`. */
  function FirstIdle<T>(lanes: seq<Lane<T>>, q: nat): (p: nat)
    requires q <= |lanes|
    ensures q <= p <= |lanes|
    ensures forall i :: q <= i < p ==> lanes[i].cur.Some?
    ensures p < |lanes| ==> lanes[p].cur.None?
    decreases |lanes| - q
  {
    if q == |lanes| then q else if lanes[q].cur.None? then q else FirstIdle(lanes, q + 1)
  }

  /** Starting a call is deciding from the rightmost lane whether this is the first one. */
  lemma StartIsMid<T>(lanes: seq<Lane<T>>)
    requires |lanes| > 0
    ensures IterateLast(lanes, StartOfIter) == IterateLast(lanes, MidIter(!lanes[|lanes| - 1].InProgress()))
  {
  }

  /** Lanes standing at an in-range digit vector are valid, busy and at those digits. */
  lemma LanesAtValid<T>(origs: seq<seq<T>>, e: seq<nat>)
    requires InRange(e, Lens(origs))
    ensures AllBusy(LanesAt(origs, e)) && LanesValid(LanesAt(origs, e))
    ensures Digits(LanesAt(origs, e)) == e && Origs(LanesAt(origs, e)) == origs
  {
  }

  lemma DrainedValid<T>(origs: seq<seq<T>>)
    ensures AllIdle(Drained(origs)) && LanesValid(Drained(origs)) && Origs(Drained(origs)) == origs
  {
  }

  /**
   * `next` while the tuple of rank `Rank(d)` is current: the lanes move
   * to rank `Rank(d) + 1`, or, after the last tuple, every lane is
   * drained and idle, so the following call starts over.
   */
  lemma NextFromBusy<T>(lanes: seq<Lane<T>>)
    requires LanesValid(lanes) && InProgressOf(lanes)
    ensures AllBusy(lanes) && InRange(Digits(lanes), Lens(Origs(lanes)))
    ensures LanesValid(IterateLast(lanes, StartOfIter).1)
    ensures Origs(IterateLast(lanes, StartOfIter).1) == Origs(lanes)
    ensures IterateLast(lanes, StartOfIter).0 <==> Rank(Digits(lanes), Lens(Origs(lanes))) + 1 < Prod(Lens(Origs(lanes)))
    ensures IterateLast(lanes, StartOfIter).0 ==>
      && AllBusy(IterateLast(lanes, StartOfIter).1)
      && Rank(Digits(IterateLast(lanes, StartOfIter).1), Lens(Origs(lanes))) == Rank(Digits(lanes), Lens(Origs(lanes))) + 1
    ensures !IterateLast(lanes, StartOfIter).0 ==> IterateLast(lanes, StartOfIter).1 == Drained(Origs(lanes))
  {
    var n := |lanes|;
    assert forall i :: 0 <= i < n ==> lanes[i].cur.Some? by {
      assert lanes[n - 1].cur.Some?;
    }
    assert AllBusy(lanes);
    StartIsMid(lanes);
    CarryStep(lanes);
    var d, r, o := Digits(lanes), Lens(Origs(lanes)), Origs(lanes);
    IncrementRank(d, r);
    match Increment(d, r) {
      case Some(e) => LanesAtValid(o, e);
      case None => DrainedValid(o);
    }
  }

  /** Busy lanes up to `e`, an idle empty lane `e`, idle lanes after it: a valid state. */
  lemma StoppedAtEmpty<T>(lanes: seq<Lane<T>>, e: nat)
    requires e <= |lanes|
    requires forall i :: 0 <= i < |lanes| ==> lanes[i].Valid()
    requires forall i :: 0 <= i < e ==> lanes[i].cur.Some?
    requires forall i :: e <= i < |lanes| ==> lanes[i].cur.None?
    requires e < |lanes| ==> |lanes[e].orig| == 0
    ensures LanesValid(lanes)
  {
  }

  /**
   * `next` with no lane holding an item (fresh, or after the last tuple):
   * every lane restarts and the first tuple, all digits 0, is current;
   * with no lanes, or an empty one, it fails.
   */
  lemma NextFromIdle<T>(lanes: seq<Lane<T>>)
    requires LanesValid(lanes) && AllIdle(lanes)
    ensures LanesValid(IterateLast(lanes, StartOfIter).1)
    ensures Origs(IterateLast(lanes, StartOfIter).1) == Origs(lanes)
    ensures IterateLast(lanes, StartOfIter).0 <==> |lanes| > 0 && forall i :: 0 <= i < |lanes| ==> |lanes[i].orig| > 0
    ensures IterateLast(lanes, StartOfIter).0 ==>
      AllBusy(IterateLast(lanes, StartOfIter).1) && Digits(IterateLast(lanes, StartOfIter).1) == seq(|lanes|, i => 0)
    ensures !IterateLast(lanes, StartOfIter).0 ==> !InProgressOf(IterateLast(lanes, StartOfIter).1)
  {
    var n := |lanes|;
    if n > 0 {
      StartIsMid(lanes);
      var e := FirstEmpty(lanes, 0);
      RestartStep(lanes, 0, e);
      RestartedLanes(lanes, IterateLast(lanes, StartOfIter).1, e);
    }
  }

  /** The lanes `RestartStep` leaves behind when every lane was idle. */
  lemma RestartedLanes<T>(lanes: seq<Lane<T>>, out: seq<Lane<T>>, e: nat)
    requires LanesValid(lanes) && AllIdle(lanes) && |out| == |lanes|
    requires e <= |lanes| && (forall i :: 0 <= i < e ==> |lanes[i].orig| > 0)
    requires e < |lanes| ==> |lanes[e].orig| == 0
    requires forall i :: 0 <= i <= e && i < |lanes| ==> out[i] == lanes[i].Reset().Iterate()
    requires forall i :: e < i < |lanes| ==> out[i] == lanes[i]
    ensures LanesValid(out)
    ensures e == |lanes| ==> AllBusy(out) && Digits(out) == seq(|lanes|, i => 0)
    ensures e < |lanes| ==> !InProgressOf(out)
  {
    assert forall i :: 0 <= i < e ==> out[i] == LaneAt(lanes[i].orig, 0);
    StoppedAtEmpty(out, e);
  }

  /**
   * `next` with a busy prefix stopped by lane `p` with an empty sequence:
   * lane `p` is reset again and the call fails.
   */
  lemma NextFromBlocked<T>(lanes: seq<Lane<T>>)
    requires LanesValid(lanes) && !InProgressOf(lanes) && !AllIdle(lanes)
    ensures !IterateLast(lanes, StartOfIter).0
    ensures LanesValid(IterateLast(lanes, StartOfIter).1)
    ensures Origs(IterateLast(lanes, StartOfIter).1) == Origs(lanes)
    ensures !InProgressOf(IterateLast(lanes, StartOfIter).1)
  {
    var n := |lanes|;
    var p := FirstIdle(lanes, 0);
    assert lanes[0].cur.Some?;
    assert 0 < p < n && lanes[p - 1].cur.Some?;
    assert forall i :: p <= i < n ==> lanes[i].cur.None?;
    assert |lanes[p].orig| == 0;
    StartIsMid(lanes);
    RestartStep(lanes, p, p);
    var out := IterateLast(lanes, StartOfIter).1;
    assert out[p] == Lane(None, 0, lanes[p].orig);
    assert out[n - 1].cur.None?;
    StoppedAtEmpty(out, p);
  }

  /** If some lane's sequence is empty, no call of `next` ever yields. */
  lemma EmptyLaneNeverYields<T>(lanes: seq<Lane<T>>)
    requires LanesValid(lanes)
    ensures (exists i :: 0 <= i < |lanes| && |lanes[i].orig| == 0) ==> !IterateLast(lanes, StartOfIter).0
    ensures LanesValid(IterateLast(lanes, StartOfIter).1)
  {
    if InProgressOf(lanes) {
      NextFromBusy(lanes);
      assert forall i :: 0 <= i < |lanes| ==> |lanes[i].orig| >= lanes[i].pos > 0;
    } else if AllIdle(lanes) {
      NextFromIdle(lanes);
    } else {
      NextFromBlocked(lanes);
    }
  }

  /** `multi_cartesian_product`: a fresh lane per sequence. */
  function Fresh<T>(origs: seq<seq<T>>): (lanes: seq<Lane<T>>)
    ensures |lanes| == |origs| && forall i :: 0 <= i < |origs| ==> lanes[i] == NewLane(origs[i])
  {
    seq(|origs|, i requires 0 <= i < |origs| => NewLane(origs[i]))
  }

  lemma FreshValid<T>(origs: seq<seq<T>>)
    ensures LanesValid(Fresh(origs)) && AllIdle(Fresh(origs)) && Origs(Fresh(origs)) == origs
  {
  }

  /** Each tuple `next` yields is the nested-loop tuple at the lanes' rank. */
  lemma NextYieldsProduct<T>(lanes: seq<Lane<T>>)
    requires AllBusy(lanes)
    ensures Rank(Digits(lanes), Lens(Origs(lanes))) < |Product(Origs(lanes))|
    ensures Product(Origs(lanes))[Rank(Digits(lanes), Lens(Origs(lanes)))] == Current(lanes)
  {
    BusyLanesAtDigits(lanes);
    ProductAt(Origs(lanes), Digits(lanes));
  }

  /** `count`, fresh or stopped: the product of what each iterator still holds. */
  function RemainingProduct<T>(lanes: seq<Lane<T>>): nat
    decreases |lanes|
  {
    if |lanes| == 0 then 1 else RemainingProduct(lanes[..|lanes| - 1]) * lanes[|lanes| - 1].RemainingCount()
  }

  /** `count` mid-iteration: what each iterator still holds, read as mixed-radix digits. */
  function RemainingMixed<T>(lanes: seq<Lane<T>>): nat
    decreases |lanes|
  {
    if |lanes| == 0 then 0
    else RemainingMixed(lanes[..|lanes| - 1]) * |lanes[|lanes| - 1].orig| + lanes[|lanes| - 1].RemainingCount()
  }

  /** `count`. */
  function CountOf<T>(lanes: seq<Lane<T>>): nat {
    if |lanes| == 0 then 0
    else if !InProgressOf(lanes) then RemainingProduct(lanes)
    else RemainingMixed(lanes)
  }

  lemma {:induction false} MixedPlusRank<T>(lanes: seq<Lane<T>>)
    requires AllBusy(lanes)
    ensures RemainingMixed(lanes) + Rank(Digits(lanes), Lens(Origs(lanes))) + 1 == Prod(Lens(Origs(lanes)))
    decreases |lanes|
  {
    if |lanes| > 0 {
      var n := |lanes|;
      var rest := lanes[..n - 1];
      PrefixShapes(lanes);
      assert AllBusy(rest);
      MixedPlusRank(rest);
      var m, rk, rl := RemainingMixed(rest), Rank(Digits(rest), Lens(Origs(rest))), |lanes[n - 1].orig|;
      assert (m + rk + 1) * rl == m * rl + rk * rl + rl;
    }
  }

  /** Mid-iteration, `count` is the number of tuples after the current one. */
  lemma CountBusy<T>(lanes: seq<Lane<T>>)
    requires LanesValid(lanes) && InProgressOf(lanes)
    ensures AllBusy(lanes)
    ensures CountOf(lanes) == Prod(Lens(Origs(lanes))) - 1 - Rank(Digits(lanes), Lens(Origs(lanes)))
  {
    assert lanes[|lanes| - 1].cur.Some?;
    assert AllBusy(lanes);
    MixedPlusRank(lanes);
  }

  lemma {:induction false} RemainingProductFresh<T>(origs: seq<seq<T>>)
    ensures RemainingProduct(Fresh(origs)) == Prod(Lens(origs))
    decreases |origs|
  {
    if |origs| > 0 {
      var n := |origs|;
      assert Fresh(origs)[..n - 1] == Fresh(origs[..n - 1]);
      assert Lens(origs)[..n - 1] == Lens(origs[..n - 1]);
      RemainingProductFresh(origs[..n - 1]);
    }
  }

  /** Before the first `next`, `count` is the size of the whole product. */
  lemma CountFresh<T>(origs: seq<seq<T>>)
    requires |origs| > 0
    ensures CountOf(Fresh(origs)) == |Product(origs)|
  {
    RemainingProductFresh(origs);
    ProductSize(origs);
  }

  lemma {:induction false} RemainingProductZero<T>(lanes: seq<Lane<T>>, k: nat)
    requires k < |lanes| && lanes[k].RemainingCount() == 0
    ensures RemainingProduct(lanes) == 0
    decreases |lanes|
  {
    if k < |lanes| - 1 {
      RemainingProductZero(lanes[..|lanes| - 1], k);
    }
  }

  /** Mid-iteration no lane's sequence is empty. */
  lemma BusyNonEmpty<T>(lanes: seq<Lane<T>>)
    requires LanesValid(lanes)
    ensures InProgressOf(lanes) ==> forall i :: 0 <= i < |lanes| ==> |lanes[i].orig| > 0
  {
    if InProgressOf(lanes) {
      assert lanes[|lanes| - 1].cur.Some?;
      assert forall i :: 0 <= i < |lanes| ==> |lanes[i].orig| >= lanes[i].pos > 0;
    }
  }

  /** With an empty lane, `count` is 0, as many as `next` yields. */
  lemma CountEmptyLane<T>(lanes: seq<Lane<T>>, k: nat)
    requires LanesValid(lanes) && k < |lanes| && |lanes[k].orig| == 0
    ensures CountOf(lanes) == 0
  {
    BusyNonEmpty(lanes);
    RemainingProductZero(lanes, k);
  }

  /** The remaining last items, up to the first iterator already used up. */
  function LastsWhileSome<T>(lanes: seq<Lane<T>>): (r: seq<T>)
    ensures |r| <= |lanes|
    ensures forall i :: 0 <= i < |r| ==> lanes[i].RemainingLast() == Some(r[i])
    ensures |r| < |lanes| ==> lanes[|r|].RemainingLast().None?
    decreases |lanes|
  {
    if |lanes| == 0 then []
    else match lanes[0].RemainingLast()
      case None => []
      case Some(x) => [x] + LastsWhileSome(lanes[1..])
  }

  /**
   * `last` as written: the last item of each lane's remaining iterator,
   * provided none of them is used up.
   */
  function LastAsWritten<T>(lanes: seq<Lane<T>>): (r: Option<seq<T>>)
    ensures r.Some? <==> forall i :: 0 <= i < |lanes| ==> lanes[i].pos < |lanes[i].orig|
    ensures r.Some? ==> |r.value| == |lanes|
    ensures r.Some? ==> forall i :: 0 <= i < |lanes| ==> r.value[i] == lanes[i].orig[|lanes[i].orig| - 1]
  {
    var lasts := LastsWhileSome(lanes);
    if |lasts| == |lanes| then Some(lasts) else None
  }

  /**
   * Over `[[1, 2], [3, 4]]`, after `next` has yielded `[1, 3]` and
   * `[1, 4]`, two tuples remain and `count` says so, yet `last` as
   * written answers `None`: the second lane's iterator is used up
   * although the lane restarts on the next call.
   */
  lemma LastAsWrittenMissesRemaining()
    ensures var s0 := Fresh([[1, 2], [3, 4]]);
      var s1 := IterateLast(s0, StartOfIter);
      var s2 := IterateLast(s1.1, StartOfIter);
      && s1.0 && Current(s1.1) == [1, 3]
      && s2.0 && Current(s2.1) == [1, 4]
      && CountOf(s2.1) == 2
      && IterateLast(s2.1, StartOfIter).0
      && LastAsWritten(s2.1) == None
  {
    var a, b := Lane(None, 0, [1, 2]), Lane(None, 0, [3, 4]);
    var a1, b1, b2 := Lane(Some(1), 1, [1, 2]), Lane(Some(3), 1, [3, 4]), Lane(Some(4), 2, [3, 4]);
    var a2 := Lane(Some(2), 2, [1, 2]);
    var s0 := Fresh([[1, 2], [3, 4]]);
    assert s0 == [a, b];
    // first call: both lanes restart
    assert IterateLast<int>([], MidIter(true)) == (true, []);
    assert !a.InProgress() && a.Reset().Iterate() == a1 && [a][..0] == [];
    assert IterateLast([a], MidIter(true)).0 && IterateLast([a], MidIter(true)).1 == [a1];
    assert !b.InProgress() && b.Reset().Iterate() == b1 && [a, b][..1] == [a];
    var s1 := [a1, b1];
    assert IterateLast(s0, StartOfIter).0 && IterateLast(s0, StartOfIter).1 == s1;
    // second call: the last lane steps
    assert b1.Iterate() == b2 && [a1, b1][..1] == [a1];
    var s2 := [a1, b2];
    assert IterateLast(s1, StartOfIter).0 && IterateLast(s1, StartOfIter).1 == s2;
    // third call: the last lane runs dry, the first steps, the last restarts
    assert b2.Iterate() == Lane(None, 2, [3, 4]) && Lane(None, 2, [3, 4]).Reset().Iterate() == b1;
    assert a1.Iterate() == a2 && [a1, b2][..1] == [a1];
    assert IterateLast([a1], MidIter(false)).0 && IterateLast([a1], MidIter(false)).1 == [a2];
    assert IterateLast(s2, StartOfIter).0 && IterateLast(s2, StartOfIter).1 == [a2, b1];
    assert RemainingMixed(s2[..1]) == 1;
  }

  /**
   * With no lanes at all `next` yields nothing and `count` is 0, yet
   * `last` as written answers `Some([])`.
   */
  lemma LastAsWrittenOfNoLanes()
    ensures !IterateLast<int>([], StartOfIter).0
    ensures CountOf<int>([]) == 0
    ensures LastAsWritten<int>([]) == Some([])
  {
  }

  /**
   * `last` as intended: the last tuple `next` would still yield, if any;
   * it is the tuple of every sequence's last item.
   */
  function LastRemaining<T>(lanes: seq<Lane<T>>): (r: Option<seq<T>>)
    ensures r.Some? ==> |r.value| == |lanes|
    ensures r.Some? ==> forall i :: 0 <= i < |lanes| ==> |lanes[i].orig| > 0 && r.value[i] == lanes[i].orig[|lanes[i].orig| - 1]
  {
    if CountOf(lanes) > 0 && forall i :: 0 <= i < |lanes| ==> |lanes[i].orig| > 0 then
      Some(LastTuple(Origs(lanes)))
    else
      None
  }

  /** Every sequence's last item. */
  function LastTuple<T>(origs: seq<seq<T>>): (t: seq<T>)
    requires forall i :: 0 <= i < |origs| ==> |origs[i]| > 0
    ensures |t| == |origs| && forall i :: 0 <= i < |origs| ==> t[i] == origs[i][|origs[i]| - 1]
  {
    seq(|origs|, i requires 0 <= i < |origs| && |origs[i]| > 0 => origs[i][|origs[i]| - 1])
  }

  /** The digits of the last vector rank last. */
  lemma {:induction false} RankOfLast(r: seq<nat>)
    requires forall i :: 0 <= i < |r| ==> r[i] > 0
    ensures InRange(seq(|r|, i requires 0 <= i < |r| => r[i] - 1), r)
    ensures Rank(seq(|r|, i requires 0 <= i < |r| => r[i] - 1), r) + 1 == Prod(r)
    decreases |r|
  {
    if |r| > 0 {
      var n := |r|;
      var top := seq(n, i requires 0 <= i < n => r[i] - 1);
      var rp := r[..n - 1];
      assert top[..n - 1] == seq(n - 1, i requires 0 <= i < n - 1 => rp[i] - 1);
      RankOfLast(rp);
      MulSucc(Rank(top[..n - 1], rp), r[n - 1]);
    }
  }

  /** The last tuple of the nested loops picks every sequence's last item. */
  lemma LastOfProduct<T>(origs: seq<seq<T>>)
    requires forall i :: 0 <= i < |origs| ==> |origs[i]| > 0
    ensures |Product(origs)| > 0
    ensures Product(origs)[|Product(origs)| - 1] == LastTuple(origs)
  {
    var r := Lens(origs);
    var top := seq(|r|, i requires 0 <= i < |r| => r[i] - 1);
    RankOfLast(r);
    ProductSize(origs);
    ProductAt(origs, top);
  }

  /** Mid-iteration, `last` as intended is the product's last tuple while one remains. */
  lemma LastRemainingBusy<T>(lanes: seq<Lane<T>>)
    requires LanesValid(lanes) && InProgressOf(lanes)
    ensures LastRemaining(lanes).Some? <==> Rank(Digits(lanes), Lens(Origs(lanes))) + 1 < |Product(Origs(lanes))|
    ensures LastRemaining(lanes).Some? ==> LastRemaining(lanes).value == Product(Origs(lanes))[|Product(Origs(lanes))| - 1]
  {
    CountBusy(lanes);
    ProductSize(Origs(lanes));
    BusyNonEmpty(lanes);
    LastOfProduct(Origs(lanes));
  }

  /** Before the first `next`, `last` as intended is the product's last tuple, if any. */
  lemma LastRemainingFresh<T>(origs: seq<seq<T>>)
    requires |origs| > 0
    ensures LastRemaining(Fresh(origs)).Some? <==> |Product(origs)| > 0
    ensures LastRemaining(Fresh(origs)).Some? ==> LastRemaining(Fresh(origs)).value == Product(origs)[|Product(origs)| - 1]
  {
    CountFresh(origs);
    ProductSize(origs);
    ProdPositive(Lens(origs));
    if forall i :: 0 <= i < |origs| ==> |origs[i]| > 0 {
      LastOfProduct(origs);
    }
  }

  /** The rank of the current tuple in the nested-loop order. */
  function PositionOf<T>(lanes: seq<Lane<T>>): nat {
    Rank(Digits(lanes), Lens(Origs(lanes)))
  }

  /** How many tuples the product has. */
  function TotalOf<T>(lanes: seq<Lane<T>>): nat {
    Prod(Lens(Origs(lanes)))
  }

  /**
   * One call of `next` from any reachable state: the state stays
   * reachable; while a tuple is current, the next one in nested-loop
   * order follows, and after the last one the lanes are drained; from
   * idle lanes the first tuple follows.
   */
  lemma NextSpec<T>(lanes: seq<Lane<T>>)
    requires LanesValid(lanes)
    ensures LanesValid(IterateLast(lanes, StartOfIter).1)
    ensures Origs(IterateLast(lanes, StartOfIter).1) == Origs(lanes)
    ensures IterateLast(lanes, StartOfIter).0 ==>
      && AllBusy(IterateLast(lanes, StartOfIter).1)
      && PositionOf(IterateLast(lanes, StartOfIter).1) < |Product(Origs(lanes))|
      && Current(IterateLast(lanes, StartOfIter).1) == Product(Origs(lanes))[PositionOf(IterateLast(lanes, StartOfIter).1)]
    ensures InProgressOf(lanes) ==> (IterateLast(lanes, StartOfIter).0 <==> PositionOf(lanes) + 1 < TotalOf(lanes))
    ensures InProgressOf(lanes) && IterateLast(lanes, StartOfIter).0 ==>
      PositionOf(IterateLast(lanes, StartOfIter).1) == PositionOf(lanes) + 1
    ensures InProgressOf(lanes) && !IterateLast(lanes, StartOfIter).0 ==>
      IterateLast(lanes, StartOfIter).1 == Drained(Origs(lanes))
    ensures !IterateLast(lanes, StartOfIter).0 ==> !InProgressOf(IterateLast(lanes, StartOfIter).1)
    ensures AllIdle(lanes) ==> (IterateLast(lanes, StartOfIter).0 <==> |lanes| > 0 && TotalOf(lanes) > 0)
    ensures AllIdle(lanes) && IterateLast(lanes, StartOfIter).0 ==> PositionOf(IterateLast(lanes, StartOfIter).1) == 0
  {
    var out := IterateLast(lanes, StartOfIter).1;
    if InProgressOf(lanes) {
      NextFromBusy(lanes);
    } else if AllIdle(lanes) {
      NextFromIdle(lanes);
      ProdPositive(Lens(Origs(lanes)));
      if IterateLast(lanes, StartOfIter).0 {
        ZerosRankZero(Lens(Origs(lanes)));
      }
    } else {
      NextFromBlocked(lanes);
    }
    if IterateLast(lanes, StartOfIter).0 {
      NextYieldsProduct(out);
    }
  }

  /**
   * Before the first `next` and mid-iteration, `count` is the number of
   * tuples `next` still yields: the call succeeds exactly when it is
   * positive, and each success uses up one.
   */
  lemma CountStep<T>(lanes: seq<Lane<T>>)
    requires LanesValid(lanes) && (InProgressOf(lanes) || lanes == Fresh(Origs(lanes)))
    ensures IterateLast(lanes, StartOfIter).0 <==> CountOf(lanes) > 0
    ensures IterateLast(lanes, StartOfIter).0 ==> CountOf(IterateLast(lanes, StartOfIter).1) + 1 == CountOf(lanes)
  {
    NextSpec(lanes);
    var out := IterateLast(lanes, StartOfIter).1;
    if InProgressOf(lanes) {
      CountBusy(lanes);
    } else {
      FreshValid(Origs(lanes));
      if |lanes| > 0 {
        CountFresh(Origs(lanes));
        ProductSize(Origs(lanes));
      }
    }
    if IterateLast(lanes, StartOfIter).0 {
      assert |out| > 0 && out[|out| - 1].cur.Some?;
      CountBusy(out);
    }
  }

  /**
   * Before the first `next` and mid-iteration, with no lanes too, `last`
   * as intended answers exactly when `next` would still yield a tuple.
   */
  lemma LastRemainingAgreesWithNext<T>(lanes: seq<Lane<T>>)
    requires LanesValid(lanes) && (InProgressOf(lanes) || lanes == Fresh(Origs(lanes)))
    ensures LastRemaining(lanes).Some? <==> IterateLast(lanes, StartOfIter).0
  {
    CountStep(lanes);
    if exists k :: 0 <= k < |lanes| && |lanes[k].orig| == 0 {
      var k :| 0 <= k < |lanes| && |lanes[k].orig| == 0;
      CountEmptyLane(lanes, k);
    }
  }

  /**
   * `iterate_last` as the code runs it: the slice is handed in and handed
   * back, the rightmost lane updated after the recursive call on the rest.
   */
  method IterateLastMut<T>(lanes: seq<Lane<T>>, state: IterState) returns (ok: bool, out: seq<Lane<T>>)
    ensures (ok, out) == IterateLast(lanes, state)
    decreases |lanes|
  {
    if |lanes| == 0 {
      ok := match state
        case StartOfIter => false
        case MidIter(onFirstIter) => onFirstIter;
      return ok, [];
    }
    var last, rest := lanes[|lanes| - 1], lanes[..|lanes| - 1];
    var state' := state;
    var onFirstIter: bool;
    match state {
      case StartOfIter =>
        onFirstIter := !last.InProgress();
        state' := MidIter(onFirstIter);
      case MidIter(f) =>
        onFirstIter := f;
    }
    if !onFirstIter {
      last := last.Iterate();
    }
    if last.InProgress() {
      return true, rest + [last];
    }
    var restOk, rest' := IterateLastMut(rest, state');
    if restOk {
      last := last.Reset();
      last := last.Iterate();
      ok := last.InProgress();
    } else {
      ok := false;
    }
    out := rest' + [last];
  }

  /**
   * `MultiProductBase`: the lanes, updated in place by `next`. The item
   * manager is passed to `NextMap`; `Next` returns the tuple that
   * `CollectToVec` builds.
   */
  class MultiProductBase<T> {
    var iters: seq<Lane<T>>

    ghost predicate Valid()
      reads this
    {
      LanesValid(iters)
    }

    ghost function Position(): nat
      reads this
    {
      PositionOf(iters)
    }

    ghost function Total(): nat
      reads this
    {
      TotalOf(iters)
    }

    /** `multi_cartesian_product` (and `multi_cartesian_product_map`, with its manager apart). */
    constructor(origs: seq<seq<T>>)
      ensures Valid() && iters == Fresh(origs)
    {
      iters := Fresh(origs);
      new;
      FreshValid(origs);
    }

    /** `MultiProductBase::in_progress`. */
    predicate InProgress()
      reads this
    {
      InProgressOf(iters)
    }

    /**
     * `next`: the following tuple in nested-loop order, starting over
     * after `None` (the adaptor is not fused).
     */
    method Next() returns (r: Option<seq<T>>)
      requires Valid()
      modifies this
      ensures Valid()
      ensures iters == IterateLast(old(iters), StartOfIter).1
      ensures r.Some? == IterateLast(old(iters), StartOfIter).0
      ensures r.Some? ==> AllBusy(iters) && r.value == Current(iters)
      ensures r.Some? ==> Position() < |Product(Origs(iters))| && r.value == Product(Origs(iters))[Position()]
      ensures old(InProgress()) ==> (r.Some? <==> old(Position()) + 1 < Total())
      ensures old(InProgress()) && r.Some? ==> Position() == old(Position()) + 1
      ensures old(AllIdle(iters)) ==> (r.Some? <==> |iters| > 0 && Total() > 0)
      ensures old(AllIdle(iters)) && r.Some? ==> Position() == 0
      ensures r.None? ==> !InProgress()
    {
      ghost var lanes := iters;
      var ok;
      ok, iters := IterateLastMut(iters, StartOfIter);
      NextSpec(lanes);
      if ok {
        r := Some(CollectToVec(Current(iters)));
      } else {
        r := None;
      }
    }

    /** `next` of `MultiProductMap`: the mapped tuple. */
    method NextMap<R>(manager: MapSlice<T, R>) returns (r: Option<R>)
      requires Valid() && manager.vec == []
      modifies this, manager
      ensures Valid() && manager.vec == []
      ensures iters == IterateLast(old(iters), StartOfIter).1
      ensures r.Some? == IterateLast(old(iters), StartOfIter).0
      ensures r.Some? ==> AllBusy(iters) && manager.seen == Current(iters) && r.value == manager.func(manager.seen)
    {
      var window := Next();
      if window.Some? {
        var y := manager.NewItem(window.value);
        r := Some(y);
      } else {
        r := None;
      }
    }

    /** `count`. */
    function Count(): nat
      reads this
    {
      CountOf(iters)
    }

    /** `last`, corrected: see `LastAsWritten` for the code as written. */
    function Last(): Option<seq<T>>
      reads this
    {
      LastRemaining(iters)
    }
  }
}
