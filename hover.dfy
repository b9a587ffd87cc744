/**
 * The hover lookup of the line tooltips: `d3.bisector(d => d.date).left(d, x, 1)` over the points
 * of the hovered curve, followed by `d[index - 1]`, which picks the point the tooltip describes.
 */
module Hover {
  import opened Wrappers
  import opened Records

  /** The points are in non-decreasing date order. */
  predicate SortedByDate(a: seq<Row>) {
    forall i, j :: 0 <= i < j < |a| ==> TimeOf(a[i]) <= TimeOf(a[j])
  }

  /** The points are in increasing date order: no two share a date. */
  predicate StrictlySortedByDate(a: seq<Row>) {
    forall i, j :: 0 <= i < j < |a| ==> TimeOf(a[i]) < TimeOf(a[j])
  }

  /**
   * `bisector.left(a, x, lo)` with `hi = a.length`: a binary search over `[lo, |a|)` for the first
   * position whose date is not before `x`. When `lo` is not below `|a|` the search does not run
   * and `lo` itself is returned.
   */
  method BisectLeft(a: seq<Row>, x: int, lo: nat) returns (i: nat)
    ensures lo >= |a| ==> i == lo
    ensures lo < |a| ==> lo <= i <= |a|
    ensures lo < |a| && i > lo ==> TimeOf(a[i - 1]) < x
    ensures lo < |a| && i < |a| ==> TimeOf(a[i]) >= x
    ensures lo < |a| && SortedByDate(a) ==> forall k :: lo <= k < i ==> TimeOf(a[k]) < x
    ensures lo < |a| && SortedByDate(a) ==> forall k :: i <= k < |a| ==> TimeOf(a[k]) >= x
  {
    i := lo;
    var hi := |a|;
    if i < hi {
      while i < hi
        invariant lo <= i <= hi <= |a|
        invariant i > lo ==> TimeOf(a[i - 1]) < x
        invariant hi < |a| ==> TimeOf(a[hi]) >= x
        invariant SortedByDate(a) ==> forall k :: lo <= k < i ==> TimeOf(a[k]) < x
        invariant SortedByDate(a) ==> forall k :: hi <= k < |a| ==> TimeOf(a[k]) >= x
        decreases hi - i
      {
        var mid := (i + hi) / 2;
        if TimeOf(a[mid]) < x {
          i := mid + 1;
        } else {
          hi := mid;
        }
      }
    }
  }

  /**
   * The reference answer: the index of the last point dated strictly before `x`, not counting
   * the first point, or 0 when no later point is; in a sorted curve that is the last point before
   * `x`, or the first point when there is none.
   */
  function LastBefore(a: seq<Row>, x: int): (k: nat)
    requires a != []
    ensures k < |a|
    ensures k > 0 ==> TimeOf(a[k]) < x
    ensures forall j :: k < j < |a| ==> TimeOf(a[j]) >= x
  {
    if |a| == 1 then 0
    else if TimeOf(a[|a| - 1]) < x then |a| - 1
    else LastBefore(a[..|a| - 1], x)
  }

  /** The ensures of `LastBefore` pin it down: any index with both properties is that index. */
  lemma LastBeforeUnique(a: seq<Row>, x: int, k: nat)
    requires k < |a|
    requires k > 0 ==> TimeOf(a[k]) < x
    requires forall j :: k < j < |a| ==> TimeOf(a[j]) >= x
    ensures LastBefore(a, x) == k
  {
  }

  /**
   * What the search promises about the shown index `k` whatever the order of the points: `k` is 0
   * or dated before `x`, and the point after it, if any, is not dated before `x`.
   */
  predicate ShownAt(a: seq<Row>, x: int, k: nat)
    requires k < |a|
  {
    (k > 0 ==> TimeOf(a[k]) < x) && (k + 1 < |a| ==> TimeOf(a[k + 1]) >= x)
  }

  /**
   * The lookup of `handleMouseOverLine` for a query time `x`: no point for an empty curve (the
   * handler returns without a tooltip), otherwise `d[bisect(d, x, 1) - 1]`. On a date-sorted
   * curve that is the last point dated before `x`, or the first point when none is.
   */
  method HoverPoint(curve: seq<Row>, x: int) returns (point: Option<Row>)
    ensures point.None? <==> curve == []
    ensures point.Some? ==> point.value in curve
    ensures point.Some? ==> exists k :: 0 <= k < |curve| && point.value == curve[k] && ShownAt(curve, x, k)
    ensures curve != [] && SortedByDate(curve) ==> point == Some(curve[LastBefore(curve, x)])
  {
    var index := BisectLeft(curve, x, 1);
    if index - 1 < |curve| {
      point := Some(curve[index - 1]);
      if SortedByDate(curve) {
        LastBeforeUnique(curve, x, index - 1);
      }
      assert ShownAt(curve, x, index - 1);
    } else {
      point := None;
    }
  }

  /** A query after the last date shows the last point. */
  lemma QueryAfterLast(a: seq<Row>, x: int)
    requires a != [] && TimeOf(a[|a| - 1]) < x
    ensures LastBefore(a, x) == |a| - 1
  {
  }

  /** A query no later than every point after the first shows the first point. */
  lemma QueryBeforeAll(a: seq<Row>, x: int)
    requires a != [] && forall j :: 0 < j < |a| ==> TimeOf(a[j]) >= x
    ensures LastBefore(a, x) == 0
  {
    LastBeforeUnique(a, x, 0);
  }

  /**
   * Hovering exactly on the date of point `k >= 1` of a strictly sorted curve shows the point
   * before it, since the search is for dates strictly before the query.
   */
  lemma ExactMatchShowsPrevious(a: seq<Row>, k: nat)
    requires StrictlySortedByDate(a) && 1 <= k < |a|
    ensures LastBefore(a, TimeOf(a[k])) == k - 1
  {
    var x := TimeOf(a[k]);
    assert forall j :: k - 1 < j < |a| ==> TimeOf(a[j]) >= x by {
      forall j | k - 1 < j < |a|
        ensures TimeOf(a[j]) >= x
      {
        if j > k {
          assert TimeOf(a[k]) < TimeOf(a[j]);
        }
      }
    }
    assert k - 1 > 0 ==> TimeOf(a[k - 1]) < x;
    LastBeforeUnique(a, x, k - 1);
  }

  /**
   * On three points in date order, a query after the second date and no later than the third
   * shows the second point; a query no later than the first date shows the first point.
   */
  lemma ThreePointExample(a: seq<Row>, x: int)
    requires |a| == 3 && StrictlySortedByDate(a)
    ensures TimeOf(a[1]) < x <= TimeOf(a[2]) ==> LastBefore(a, x) == 1
    ensures x <= TimeOf(a[0]) ==> LastBefore(a, x) == 0
  {
    if TimeOf(a[1]) < x <= TimeOf(a[2]) {
      LastBeforeUnique(a, x, 1);
    }
    if x <= TimeOf(a[0]) {
      assert TimeOf(a[0]) < TimeOf(a[1]) < TimeOf(a[2]);
      LastBeforeUnique(a, x, 0);
    }
  }
}
