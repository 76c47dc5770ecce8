/**
 The distance thinning writeFit applies twice, to the course points it injects along the
 track and to the track records: the points are walked in order with a reference distance,
 a point is kept when its cumulative distance exceeds the reference by more than a gap,
 and a kept point's distance becomes the new reference.

 `Greedy` is that walk. `GreedyChoice` says, without any walk, what the kept indices are:
 each kept index is more than the gap beyond the reference in force when it is reached,
 each skipped one is not. The two are shown to determine each other.
 */
module Thinning {
  /** Strictly increasing indices. */
  predicate Increasing(r: seq<nat>) {
    forall k, l :: 0 <= k < l < |r| ==> r[k] < r[l]
  }

  /** The indices in i.. of ds that the walk keeps when it reaches i with reference
      distance `ref`. */
  function Greedy(ds: seq<real>, i: nat, ref: real, gap: real): (r: seq<nat>)
    requires i <= |ds|
    ensures |r| <= |ds| - i
    ensures forall k :: 0 <= k < |r| ==> i <= r[k] < |ds|
    decreases |ds| - i
  {
    if i == |ds| then []
    else if ds[i] - ref > gap then [i] + Greedy(ds, i + 1, ds[i], gap)
    else Greedy(ds, i + 1, ref, gap)
  }

  /** The walk keeps indices in increasing order. */
  lemma {:induction false} GreedyIncreasing(ds: seq<real>, i: nat, ref: real, gap: real)
    requires i <= |ds|
    ensures Increasing(Greedy(ds, i, ref, gap))
    decreases |ds| - i
  {
    if i < |ds| {
      if ds[i] - ref > gap {
        GreedyIncreasing(ds, i + 1, ds[i], gap);
      } else {
        GreedyIncreasing(ds, i + 1, ref, gap);
      }
    }
  }

  /** Each kept distance is more than the gap beyond the one kept before it, the first one
      more than the gap beyond the starting reference. */
  lemma {:induction false} GreedyGaps(ds: seq<real>, i: nat, ref: real, gap: real)
    requires i <= |ds|
    ensures var r := Greedy(ds, i, ref, gap);
            && (|r| > 0 ==> ds[r[0]] - ref > gap)
            && (forall k, l :: 0 <= k && l == k + 1 && l < |r| ==> ds[r[l]] - ds[r[k]] > gap)
    decreases |ds| - i
  {
    if i < |ds| {
      var r := Greedy(ds, i, ref, gap);
      if ds[i] - ref > gap {
        GreedyGaps(ds, i + 1, ds[i], gap);
        var t := Greedy(ds, i + 1, ds[i], gap);
        assert r == [i] + t;
        forall k, l | 0 <= k && l == k + 1 && l < |r|
          ensures ds[r[l]] - ds[r[k]] > gap
        {
          if k > 0 {
            assert r[k] == t[k - 1] && r[l] == t[l - 1];
          }
        }
      } else {
        GreedyGaps(ds, i + 1, ref, gap);
      }
    }
  }

  /** The reference distance in force at index j when the indices r are kept: the
      distance at the last index of r below j, or `ref` when there is none. */
  function RefAt(ds: seq<real>, r: seq<nat>, ref: real, j: int): real
    requires forall k :: 0 <= k < |r| ==> r[k] < |ds|
    decreases |r|
  {
    if |r| == 0 || r[0] >= j then ref else RefAt(ds, r[1..], ds[r[0]], j)
  }

  /** r is the set of indices in i.. of ds, in increasing order, that a thinning with
      starting reference `ref` and gap `gap` keeps. */
  ghost predicate GreedyChoice(ds: seq<real>, i: nat, ref: real, gap: real, r: seq<nat>) {
    && (forall k :: 0 <= k < |r| ==> i <= r[k] < |ds|)
    && Increasing(r)
    && (forall k :: 0 <= k < |r| ==> ds[r[k]] - RefAt(ds, r, ref, r[k]) > gap)
    && (forall j :: i <= j < |ds| && j !in r ==> ds[j] - RefAt(ds, r, ref, j) <= gap)
  }

  /** Keeping i first moves the reference in force past i to ds[i]. */
  lemma RefAtAfterHead(ds: seq<real>, r: seq<nat>, ref: real, j: int)
    requires |r| > 0 && forall k :: 0 <= k < |r| ==> r[k] < |ds|
    requires r[0] < j
    ensures RefAt(ds, r, ref, j) == RefAt(ds, r[1..], ds[r[0]], j)
  {
  }

  /** Keeping i in front of a choice for i + 1 that starts from ds[i] is a choice for i. */
  lemma ChoiceKeep(ds: seq<real>, i: nat, ref: real, gap: real, t: seq<nat>)
    requires i < |ds| && ds[i] - ref > gap
    requires GreedyChoice(ds, i + 1, ds[i], gap, t)
    ensures GreedyChoice(ds, i, ref, gap, [i] + t)
  {
    KeepOrdered(ds, i, ref, gap, t);
    KeepKept(ds, i, ref, gap, t);
    KeepSkipped(ds, i, ref, gap, t);
  }

  lemma KeepOrdered(ds: seq<real>, i: nat, ref: real, gap: real, t: seq<nat>)
    requires i < |ds|
    requires GreedyChoice(ds, i + 1, ds[i], gap, t)
    ensures forall k :: 0 <= k < |[i] + t| ==> i <= ([i] + t)[k] < |ds|
    ensures Increasing([i] + t)
  {
    var r := [i] + t;
    forall k, l | 0 <= k < l < |r|
      ensures r[k] < r[l]
    {
      assert r[l] == t[l - 1];
      if k > 0 {
        assert r[k] == t[k - 1];
      }
    }
  }

  lemma KeepKept(ds: seq<real>, i: nat, ref: real, gap: real, t: seq<nat>)
    requires i < |ds| && ds[i] - ref > gap
    requires GreedyChoice(ds, i + 1, ds[i], gap, t)
    ensures forall k :: 0 <= k < |[i] + t| ==> ds[([i] + t)[k]] - RefAt(ds, [i] + t, ref, ([i] + t)[k]) > gap
  {
    var r := [i] + t;
    assert r[1..] == t;
    forall k | 0 < k < |r|
      ensures ds[r[k]] - RefAt(ds, r, ref, r[k]) > gap
    {
      assert r[k] == t[k - 1];
      RefAtAfterHead(ds, r, ref, r[k]);
    }
  }

  lemma KeepSkipped(ds: seq<real>, i: nat, ref: real, gap: real, t: seq<nat>)
    requires i < |ds| && ds[i] - ref > gap
    requires GreedyChoice(ds, i + 1, ds[i], gap, t)
    ensures forall j :: i <= j < |ds| && j !in [i] + t ==> ds[j] - RefAt(ds, [i] + t, ref, j) <= gap
  {
    var r := [i] + t;
    assert r[1..] == t;
    forall j | i <= j < |ds| && j !in r
      ensures ds[j] - RefAt(ds, r, ref, j) <= gap
    {
      assert j != i && j !in t;
      RefAtAfterHead(ds, r, ref, j);
    }
  }

  /** Skipping i, which is not beyond the gap, keeps a choice for i + 1 a choice for i. */
  lemma ChoiceSkip(ds: seq<real>, i: nat, ref: real, gap: real, t: seq<nat>)
    requires i < |ds| && ds[i] - ref <= gap
    requires GreedyChoice(ds, i + 1, ref, gap, t)
    ensures GreedyChoice(ds, i, ref, gap, t)
  {
    assert i !in t;
    assert RefAt(ds, t, ref, i) == ref;
  }

  /** The walk keeps exactly what `GreedyChoice` describes. */
  lemma {:induction false} GreedyMeetsChoice(ds: seq<real>, i: nat, ref: real, gap: real)
    requires i <= |ds|
    ensures GreedyChoice(ds, i, ref, gap, Greedy(ds, i, ref, gap))
    decreases |ds| - i
  {
    if i < |ds| {
      if ds[i] - ref > gap {
        GreedyMeetsChoice(ds, i + 1, ds[i], gap);
        ChoiceKeep(ds, i, ref, gap, Greedy(ds, i + 1, ds[i], gap));
      } else {
        GreedyMeetsChoice(ds, i + 1, ref, gap);
        ChoiceSkip(ds, i, ref, gap, Greedy(ds, i + 1, ref, gap));
      }
    }
  }

  /** Under `GreedyChoice`, the first index i is kept exactly when it is more than the gap
      beyond the starting reference, and then it is the first kept index. */
  lemma ChoiceHead(ds: seq<real>, i: nat, ref: real, gap: real, r: seq<nat>)
    requires i < |ds|
    requires GreedyChoice(ds, i, ref, gap, r)
    ensures i in r <==> ds[i] - ref > gap
    ensures i in r ==> r[0] == i
  {
    assert RefAt(ds, r, ref, i) == ref;
    if |r| > 0 && r[0] != i {
      forall k | 0 <= k < |r|
        ensures r[k] != i
      {
        if k > 0 {
          assert r[0] < r[k];
        }
      }
    }
  }

  /** Only the walk's result meets `GreedyChoice`: the description is complete. */
  lemma {:induction false} ChoiceIsGreedy(ds: seq<real>, i: nat, ref: real, gap: real, r: seq<nat>)
    requires i <= |ds|
    requires GreedyChoice(ds, i, ref, gap, r)
    ensures r == Greedy(ds, i, ref, gap)
    decreases |ds| - i
  {
    if i < |ds| {
      ChoiceHead(ds, i, ref, gap, r);
      if ds[i] - ref > gap {
        ChoiceAfterKept(ds, i, ref, gap, r);
        ChoiceIsGreedy(ds, i + 1, ds[i], gap, r[1..]);
        assert r == [i] + r[1..];
      } else {
        ChoiceAfterSkipped(ds, i, ref, gap, r);
        ChoiceIsGreedy(ds, i + 1, ref, gap, r);
      }
    } else {
      // No index lies beyond the end, so the starting reference is still in force.
      assert RefAt(ds, r, ref, i) == ref;
    }
  }

  /** When i is kept first, the rest of the choice is a choice for i + 1 from ds[i]. */
  lemma ChoiceAfterKept(ds: seq<real>, i: nat, ref: real, gap: real, r: seq<nat>)
    requires i < |ds| && |r| > 0 && r[0] == i
    requires GreedyChoice(ds, i, ref, gap, r)
    ensures GreedyChoice(ds, i + 1, ds[i], gap, r[1..])
  {
    var t := r[1..];
    forall k | 0 <= k < |t|
      ensures i + 1 <= t[k] < |ds|
      ensures ds[t[k]] - RefAt(ds, t, ds[i], t[k]) > gap
    {
      assert t[k] == r[k + 1] && r[0] < r[k + 1];
      RefAtAfterHead(ds, r, ref, t[k]);
    }
    forall j | i + 1 <= j < |ds| && j !in t
      ensures ds[j] - RefAt(ds, t, ds[i], j) <= gap
    {
      assert j !in r;
      RefAtAfterHead(ds, r, ref, j);
    }
  }

  /** When i is not kept, the same choice is a choice for i + 1. */
  lemma ChoiceAfterSkipped(ds: seq<real>, i: nat, ref: real, gap: real, r: seq<nat>)
    requires i < |ds| && i !in r
    requires GreedyChoice(ds, i, ref, gap, r)
    ensures GreedyChoice(ds, i + 1, ref, gap, r)
  {
    forall k | 0 <= k < |r|
      ensures i + 1 <= r[k]
    {
      assert r[k] != i;
    }
  }
}
