/**
 * `Array.prototype.filter` over immutable sequences, with the positions it
 * keeps made explicit.
 */
module Arrays {

  /** `xs.filter(keep)` */
  function Filter<T>(xs: seq<T>, keep: T -> bool): (r: seq<T>)
    ensures |r| <= |xs|
    ensures forall k :: 0 <= k < |r| ==> r[k] in xs && keep(r[k])
    ensures forall i :: 0 <= i < |xs| && keep(xs[i]) ==> xs[i] in r
    decreases |xs|
  {
    if xs == [] then []
    else
      var rest := Filter(xs[1..], keep);
      assert forall i :: 1 <= i < |xs| ==> xs[i] == xs[1..][i - 1];
      if keep(xs[0]) then [xs[0]] + rest else rest
  }

  /** Adds one to every position. */
  function Shift(idx: seq<nat>): (r: seq<nat>)
    ensures |r| == |idx|
    ensures forall k :: 0 <= k < |r| ==> r[k] == idx[k] + 1
  {
    seq(|idx|, k requires 0 <= k < |idx| => idx[k] + 1)
  }

  /** The positions of `xs` whose element is kept, in increasing order. */
  function Kept<T>(xs: seq<T>, keep: T -> bool): (idx: seq<nat>)
    ensures forall k :: 0 <= k < |idx| ==> idx[k] < |xs|
    ensures forall j, k :: 0 <= j < k < |idx| ==> idx[j] < idx[k]
    decreases |xs|
  {
    if xs == [] then []
    else
      var rest := Shift(Kept(xs[1..], keep));
      if keep(xs[0]) then [0] + rest else rest
  }

  /** Position `i + 1` is in the shifted list exactly when `i` is in the original. */
  lemma ShiftMembership(idx: seq<nat>, i: nat)
    ensures i + 1 in Shift(idx) <==> i in idx
    ensures 0 !in Shift(idx)
  {
    if i in idx {
      var k :| 0 <= k < |idx| && idx[k] == i;
      assert Shift(idx)[k] == i + 1;
    }
  }

  lemma {:induction false} KeptLength<T>(xs: seq<T>, keep: T -> bool)
    ensures |Kept(xs, keep)| == |Filter(xs, keep)|
    decreases |xs|
  {
    if xs != [] {
      KeptLength(xs[1..], keep);
    }
  }

  /** One unfolding of `Filter` and `Kept` on a non-empty list. */
  lemma FilterKeptStep<T>(xs: seq<T>, keep: T -> bool)
    requires xs != []
    ensures Filter(xs, keep) == (if keep(xs[0]) then [xs[0]] else []) + Filter(xs[1..], keep)
    ensures Kept(xs, keep) == (if keep(xs[0]) then [0] else []) + Shift(Kept(xs[1..], keep))
  {
  }

  /** A selection from the tail of `xs`, shifted by one, is a selection from `xs`. */
  lemma ShiftedSelection<T>(xs: seq<T>, r: seq<T>, idx: seq<nat>)
    requires xs != [] && |r| == |idx|
    requires forall k :: 0 <= k < |r| ==> idx[k] < |xs| - 1 && r[k] == xs[1..][idx[k]]
    ensures forall k :: 0 <= k < |r| ==> r[k] == xs[Shift(idx)[k]]
    ensures forall k :: 0 <= k < |r| + 1 ==> ([xs[0]] + r)[k] == xs[([0] + Shift(idx))[k]]
  {
    forall k | 0 <= k < |r|
      ensures r[k] == xs[Shift(idx)[k]]
    {
      assert xs[1..][idx[k]] == xs[idx[k] + 1];
    }
    forall k | 1 <= k < |r| + 1
      ensures ([xs[0]] + r)[k] == xs[([0] + Shift(idx))[k]]
    {
      assert ([xs[0]] + r)[k] == r[k - 1];
      assert ([0] + Shift(idx))[k] == Shift(idx)[k - 1];
    }
  }

  lemma {:induction false} KeptElements<T>(xs: seq<T>, keep: T -> bool)
    ensures |Kept(xs, keep)| == |Filter(xs, keep)|
    ensures forall k :: 0 <= k < |Filter(xs, keep)| ==> Filter(xs, keep)[k] == xs[Kept(xs, keep)[k]]
    decreases |xs|
  {
    KeptLength(xs, keep);
    if xs != [] {
      KeptElements(xs[1..], keep);
      FilterKeptStep(xs, keep);
      ShiftedSelection(xs, Filter(xs[1..], keep), Kept(xs[1..], keep));
    }
  }

  lemma {:induction false} KeptMembership<T>(xs: seq<T>, keep: T -> bool)
    ensures forall i :: 0 <= i < |xs| ==> (keep(xs[i]) <==> i in Kept(xs, keep))
    decreases |xs|
  {
    if xs != [] {
      var tail := xs[1..];
      KeptMembership(tail, keep);
      var tailIdx := Kept(tail, keep);
      var shifted := Shift(tailIdx);
      assert Kept(xs, keep) == (if keep(xs[0]) then [0] + shifted else shifted);
      forall i | 1 <= i < |xs|
        ensures keep(xs[i]) <==> i in shifted
      {
        assert xs[i] == tail[i - 1];
        ShiftMembership(tailIdx, i - 1);
      }
      ShiftMembership(tailIdx, 0);
    }
  }

  /**
   * The filter result is exactly the elements at the kept positions, in
   * their original order: nothing invented, nothing kept dropped, nothing
   * reordered.
   */
  lemma FilterSelectsKeptPositions<T>(xs: seq<T>, keep: T -> bool)
    ensures var r, idx := Filter(xs, keep), Kept(xs, keep);
      && |idx| == |r|
      && (forall k :: 0 <= k < |r| ==> r[k] == xs[idx[k]])
      && (forall i :: 0 <= i < |xs| ==> (keep(xs[i]) <==> i in idx))
  {
    KeptElements(xs, keep);
    KeptMembership(xs, keep);
  }

  /** A filter that keeps every element is the identity. */
  lemma {:induction false} FilterKeepingAll<T>(xs: seq<T>, keep: T -> bool)
    requires forall i :: 0 <= i < |xs| ==> keep(xs[i])
    ensures Filter(xs, keep) == xs
    decreases |xs|
  {
    if xs != [] {
      assert forall i :: 0 <= i < |xs[1..]| ==> xs[1..][i] == xs[i + 1];
      FilterKeepingAll(xs[1..], keep);
    }
  }

  /** A filter that keeps the first element and nothing after it returns just that element. */
  lemma FilterKeepingOnlyFirst<T>(xs: seq<T>, keep: T -> bool)
    requires |xs| >= 1 && keep(xs[0])
    requires forall i :: 1 <= i < |xs| ==> !keep(xs[i])
    ensures Filter(xs, keep) == [xs[0]]
  {
  }
}
