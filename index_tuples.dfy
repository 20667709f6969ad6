/**
 * Index tuples into a buffered source and the lexicographic order on
 * tuples of equal length, shared by the combination generators.
 */
module IndexTuples {

  /** The tuple `[start, start + 1, ..., start + len - 1]`. */
  function Ascending(start: nat, len: nat): (r: seq<nat>)
    ensures |r| == len
    ensures forall i :: 0 <= i < len ==> r[i] == start + i
  {
    seq(len, i requires 0 <= i < len => start + i)
  }

  /** The tuple holding `len` copies of `v`. */
  function Repeat(v: nat, len: nat): (r: seq<nat>)
    ensures |r| == len
    ensures forall i :: 0 <= i < len ==> r[i] == v
  {
    seq(len, i requires 0 <= i < len => v)
  }

  /** `a` and `b` agree before position `j` and `a` is smaller at `j`. */
  ghost predicate LexLessAt(a: seq<nat>, b: seq<nat>, j: int) {
    |a| == |b| && 0 <= j < |a| && a[..j] == b[..j] && a[j] < b[j]
  }

  /** Strict lexicographic order on tuples of the same length. */
  ghost predicate LexLess(a: seq<nat>, b: seq<nat>) {
    exists j :: LexLessAt(a, b, j)
  }

  ghost predicate LexLessEq(a: seq<nat>, b: seq<nat>) {
    a == b || LexLess(a, b)
  }

  lemma LexLessIrreflexive(a: seq<nat>)
    ensures !LexLess(a, a)
  {
  }

  lemma LexLessTransitive(a: seq<nat>, b: seq<nat>, c: seq<nat>)
    requires LexLess(a, b) && LexLess(b, c)
    ensures LexLess(a, c)
  {
    var i :| LexLessAt(a, b, i);
    var j :| LexLessAt(b, c, j);
    var m := if i < j then i else j;
    assert a[..m] == a[..i][..m] == b[..i][..m] == b[..m] == b[..j][..m] == c[..j][..m] == c[..m];
    assert LexLessAt(a, c, m);
  }

  /** Lexicographic order is total on tuples of one length. */
  lemma {:induction false} LexTotal(a: seq<nat>, b: seq<nat>)
    requires |a| == |b|
    ensures LexLess(a, b) || a == b || LexLess(b, a)
  {
    if a != b {
      var j :| 0 <= j < |a| && a[j] != b[j] && forall i :: 0 <= i < j ==> a[i] == b[i] by {
        FirstDifference(a, b);
      }
      assert a[..j] == b[..j];
      if a[j] < b[j] { assert LexLessAt(a, b, j); } else { assert LexLessAt(b, a, j); }
    }
  }

  lemma {:induction false} FirstDifference(a: seq<nat>, b: seq<nat>)
    requires |a| == |b| && a != b
    ensures exists j :: 0 <= j < |a| && a[j] != b[j] && forall i :: 0 <= i < j ==> a[i] == b[i]
  {
    var k :| 0 <= k < |a| && a[k] != b[k];
    var j := 0;
    while a[j] == b[j]
      invariant 0 <= j <= k
      invariant forall i :: 0 <= i < j ==> a[i] == b[i]
      decreases k - j
    {
      j := j + 1;
    }
  }

  /**
   * A tuple that agrees with `b` before `s` and is pointwise no larger
   * from `s` on is lexicographically no larger.
   */
  lemma {:induction false} PointwiseLexLe(a: seq<nat>, b: seq<nat>, s: nat)
    requires |a| == |b| && s <= |a| && a[..s] == b[..s]
    requires forall q :: s <= q < |a| ==> a[q] <= b[q]
    ensures LexLessEq(a, b)
    decreases |a| - s
  {
    if s == |a| {
      assert a == a[..s] == b[..s] == b;
    } else if a[s] < b[s] {
      assert LexLessAt(a, b, s);
    } else {
      assert a[..s + 1] == a[..s] + [a[s]] == b[..s] + [b[s]] == b[..s + 1];
      PointwiseLexLe(a, b, s + 1);
    }
  }
}
