/** Leftmost binary search over a sorted sequence of reals, the algorithm of
    Python's `bisect.bisect_left`. */
module Bisect {

  ghost predicate Sorted(a: seq<real>) {
    forall i, j :: 0 <= i <= j < |a| ==> a[i] <= a[j]
  }

  ghost predicate StrictlySorted(a: seq<real>) {
    forall i, j :: 0 <= i < j < |a| ==> a[i] < a[j]
  }

  /** `i` is the leftmost insertion point of `x` in `a`: everything before it
      is below `x`, everything from it on is at least `x`. */
  ghost predicate IsInsertionPoint(a: seq<real>, x: real, i: int) {
    && 0 <= i <= |a|
    && (forall j :: 0 <= j < i ==> a[j] < x)
    && (forall j :: i <= j < |a| ==> x <= a[j])
  }

  /** The search loop of bisect_left on the window [lo, hi), written as
      recursion: lo only moves past elements below x, hi only down to
      elements at least x. */
  function BisectWindow(a: seq<real>, x: real, lo: nat, hi: nat): (i: nat)
    requires Sorted(a) && lo <= hi <= |a|
    requires forall j :: 0 <= j < lo ==> a[j] < x
    requires forall j :: hi <= j < |a| ==> x <= a[j]
    ensures lo <= i <= hi
    ensures IsInsertionPoint(a, x, i)
    decreases hi - lo
  {
    if lo < hi then
      var mid := (lo + hi) / 2;
      if a[mid] < x then BisectWindow(a, x, mid + 1, hi) else BisectWindow(a, x, lo, mid)
    else
      lo
  }

  function BisectLeft(a: seq<real>, x: real): (i: nat)
    requires Sorted(a)
    ensures IsInsertionPoint(a, x, i)
    ensures 0 < |a| && x <= a[|a| - 1] ==> i < |a|
  {
    BisectWindow(a, x, 0, |a|)
  }

  /** The insertion point is unique, so any index with the characterising
      property is the one bisect_left returns. */
  lemma InsertionPointUnique(a: seq<real>, x: real, i: int)
    requires Sorted(a) && IsInsertionPoint(a, x, i)
    ensures BisectLeft(a, x) == i
  {
    var k := BisectLeft(a, x);
    if i < |a| {
      assert x <= a[i];
    }
    if k < |a| {
      assert x <= a[k];
    }
  }

  /** An index lying in the step (a[i-1], a[i]] is the insertion point of
      every query in that step. */
  lemma BisectInStep(a: seq<real>, x: real, i: int)
    requires Sorted(a) && 0 <= i < |a|
    requires (i == 0 || a[i - 1] < x) && x <= a[i]
    ensures BisectLeft(a, x) == i
  {
    forall j | 0 <= j < i ensures a[j] < x {
      assert a[j] <= a[i - 1];
    }
    InsertionPointUnique(a, x, i);
  }

  /** A query equal to a stored key lands on that key's own index. */
  lemma BisectExactHit(a: seq<real>, i: int)
    requires StrictlySorted(a) && 0 <= i < |a|
    ensures Sorted(a)
    ensures BisectLeft(a, a[i]) == i
  {
    if 0 < i {
      assert a[i - 1] < a[i];
    }
    BisectInStep(a, a[i], i);
  }

  /** bisect_left is monotone in the query. */
  lemma BisectMonotone(a: seq<real>, x: real, y: real)
    requires Sorted(a) && x <= y
    ensures BisectLeft(a, x) <= BisectLeft(a, y)
  {
    var i, k := BisectLeft(a, x), BisectLeft(a, y);
    if k < |a| {
      assert y <= a[k];
    }
  }
}
