/** The per-window spike metric: first-occurring extrema, height, breadth, ratio.
    The window of length w starting at s is the points d[s], ..., d[s + w - 1]
    (`ndata[s: s + w]`); it is addressed in place rather than copied. */
module Metric {
  import opened Series

  /** The window of length w starting at s lies inside the series. */
  predicate InSeries(d: seq<Point>, s: nat, w: nat) {
    s + w <= |d|
  }

  /** Index of the point that a left-to-right scan of d[s], ..., d[e - 1] returns
      when it keeps the smallest value: a later point replaces the current one only
      if strictly smaller. */
  function MinBetween(d: seq<Point>, s: nat, e: nat): (k: nat)
    requires s < e <= |d|
    decreases e
    ensures s <= k < e
  {
    if e == s + 1 then s
    else
      var k := MinBetween(d, s, e - 1);
      if d[e - 1].val < d[k].val then e - 1 else k
  }

  /** As `MinBetween`, keeping the largest value. */
  function MaxBetween(d: seq<Point>, s: nat, e: nat): (k: nat)
    requires s < e <= |d|
    decreases e
    ensures s <= k < e
  {
    if e == s + 1 then s
    else
      var k := MaxBetween(d, s, e - 1);
      if d[e - 1].val > d[k].val then e - 1 else k
  }

  /** The scan finds the first occurrence of the minimum (Python's `min`). */
  lemma {:induction false} MinBetweenIsFirstMin(d: seq<Point>, s: nat, e: nat)
    requires s < e <= |d|
    decreases e
    ensures var k := MinBetween(d, s, e);
      && (forall j :: s <= j < e ==> d[k].val <= d[j].val)
      && (forall j :: s <= j < k ==> d[j].val > d[k].val)
  {
    if e > s + 1 {
      MinBetweenIsFirstMin(d, s, e - 1);
    }
  }

  /** The scan finds the first occurrence of the maximum (Python's `max`). */
  lemma {:induction false} MaxBetweenIsFirstMax(d: seq<Point>, s: nat, e: nat)
    requires s < e <= |d|
    decreases e
    ensures var k := MaxBetween(d, s, e);
      && (forall j :: s <= j < e ==> d[j].val <= d[k].val)
      && (forall j :: s <= j < k ==> d[j].val < d[k].val)
  {
    if e > s + 1 {
      MaxBetweenIsFirstMax(d, s, e - 1);
    }
  }

  /** Point p equals one of d[lo], ..., d[hi - 1]: the left-to-right equality
      scan of a list membership test. */
  predicate OccursBetween(d: seq<Point>, p: Point, lo: nat, hi: nat)
    requires lo <= hi <= |d|
    decreases hi - lo
  {
    lo < hi && (d[lo] == p || OccursBetween(d, p, lo + 1, hi))
  }

  /** `p in data_window[1:-1]`: p equals a point of the window other than its first
      and last. Points are compared by value, not by position. */
  predicate InInterior(d: seq<Point>, s: nat, w: nat, p: Point)
    requires w >= 2 && InSeries(d, s, w)
  {
    OccursBetween(d, p, s + 1, s + w - 1)
  }

  /** The height of a window: the spread max - min when the first maximum point or
      the first minimum point occurs among the interior points, and 0 otherwise. */
  function Height(d: seq<Point>, s: nat, w: nat): (h: real)
    requires w >= 3 && InSeries(d, s, w)
    ensures h >= 0.0
    ensures h > 0.0 ==>
      InInterior(d, s, w, d[MaxBetween(d, s, s + w)]) || InInterior(d, s, w, d[MinBetween(d, s, s + w)])
  {
    MinBetweenIsFirstMin(d, s, s + w);
    MaxBetweenIsFirstMax(d, s, s + w);
    var lo := d[MinBetween(d, s, s + w)];
    var hi := d[MaxBetween(d, s, s + w)];
    if InInterior(d, s, w, hi) || InInterior(d, s, w, lo) then hi.val - lo.val else 0.0
  }

  /** Points are compared by value: a window whose first point is repeated inside it
      has a positive height although its first maximum is its first point. */
  lemma RepeatedEdgePointCountsAsInterior()
    ensures var d := [Point(0.0, 5.0), Point(0.0, 5.0), Point(1.0, 0.0)];
      MaxBetween(d, 0, 3) == 0 && Height(d, 0, 3) == 5.0
  {
  }

  /** The breadth of a window: last argument minus first argument. */
  function Breadth(d: seq<Point>, s: nat, w: nat): real
    requires w >= 1 && InSeries(d, s, w)
  {
    d[s + w - 1].arg - d[s].arg
  }

  /** The spike ratio of a window: height over breadth (the source divides, so a
      breadth of 0 is a failure, handled by the caller). */
  function Ratio(d: seq<Point>, s: nat, w: nat): real
    requires w >= 3 && InSeries(d, s, w) && Breadth(d, s, w) != 0.0
  {
    Height(d, s, w) / Breadth(d, s, w)
  }

  /** A positive breadth gives a non-negative ratio, and a zero height a zero ratio. */
  lemma RatioSign(d: seq<Point>, s: nat, w: nat)
    requires w >= 3 && InSeries(d, s, w) && Breadth(d, s, w) > 0.0
    ensures Ratio(d, s, w) >= 0.0
    ensures Height(d, s, w) == 0.0 ==> Ratio(d, s, w) == 0.0
  {
  }

  /** The scan is sequence membership in the slice d[lo..hi]. */
  lemma {:induction false} OccursBetweenIsMembership(d: seq<Point>, p: Point, lo: nat, hi: nat)
    requires lo <= hi <= |d|
    decreases hi - lo
    ensures OccursBetween(d, p, lo, hi) <==> p in d[lo..hi]
    ensures OccursBetween(d, p, lo, hi) <==> exists k :: lo <= k < hi && d[k] == p
  {
    if lo < hi {
      OccursBetweenIsMembership(d, p, lo + 1, hi);
      assert d[lo..hi] == [d[lo]] + d[lo + 1..hi];
    }
  }

  /** With strictly increasing arguments no two points are equal, so the membership
      test of the height is the positional test "strictly inside the window". */
  lemma {:induction false} InteriorIsPositional(d: seq<Point>, s: nat, w: nat, k: nat)
    requires w >= 2 && InSeries(d, s, w) && s <= k < s + w
    requires ArgsIncreasing(d)
    ensures InInterior(d, s, w, d[k]) <==> s < k < s + w - 1
  {
    if s < k < s + w - 1 {
      OccursBetweenAt(d, s + 1, s + w - 1, k);
    } else {
      forall m | s + 1 <= m < s + w - 1
        ensures d[m] != d[k]
      {
        assert d[m].arg != d[k].arg;
      }
      NotOccursBetween(d, d[k], s + 1, s + w - 1);
    }
  }

  /** Each of d[lo], ..., d[hi - 1] occurs among them. */
  lemma {:induction false} OccursBetweenAt(d: seq<Point>, lo: nat, hi: nat, k: nat)
    requires lo <= k < hi <= |d|
    decreases k - lo
    ensures OccursBetween(d, d[k], lo, hi)
  {
    if lo < k {
      OccursBetweenAt(d, lo + 1, hi, k);
    }
  }

  /** The positional reading of the height, for strictly increasing arguments. */
  lemma {:induction false} HeightPositional(d: seq<Point>, s: nat, w: nat)
    requires w >= 3 && InSeries(d, s, w)
    requires ArgsIncreasing(d)
    ensures var lo, hi := MinBetween(d, s, s + w), MaxBetween(d, s, s + w);
      Height(d, s, w) ==
        if s < hi < s + w - 1 || s < lo < s + w - 1 then d[hi].val - d[lo].val else 0.0
  {
    InteriorIsPositional(d, s, w, MaxBetween(d, s, s + w));
    InteriorIsPositional(d, s, w, MinBetween(d, s, s + w));
  }

  /** In a series whose values are all equal, strictly rise or strictly fall, every
      window has height 0: either the spread is 0, or both first-occurring extrema
      sit on the window's edges and, the values being distinct, neither edge point
      reappears inside. */
  lemma {:induction false} HeightZeroWhenFlatOrMonotone(d: seq<Point>, s: nat, w: nat)
    requires w >= 3 && InSeries(d, s, w)
    requires ValsFlatOrMonotone(d)
    ensures Height(d, s, w) == 0.0
  {
    var first, last := s, s + w - 1;
    if forall i :: 0 <= i < |d| ==> d[i].val == d[0].val {
      var lo, hi := MinBetween(d, s, s + w), MaxBetween(d, s, s + w);
      assert d[lo].val == d[0].val == d[hi].val;
    } else if forall i, j :: 0 <= i < j < |d| ==> d[i].val < d[j].val {
      assert forall j :: s <= j < s + w && j != last ==> d[j].val < d[last].val;
      assert forall j :: s <= j < s + w && j != first ==> d[first].val < d[j].val;
      StrictEdgesHeightZero(d, s, w, last, first);
    } else {
      assert forall j :: s <= j < s + w && j != first ==> d[j].val < d[first].val;
      assert forall j :: s <= j < s + w && j != last ==> d[last].val < d[j].val;
      StrictEdgesHeightZero(d, s, w, first, last);
    }
  }

  /** A window whose strict maximum and strict minimum are its two edge points has
      height 0: they are the first-occurring extrema, and neither value reappears inside. */
  lemma {:induction false} StrictEdgesHeightZero(d: seq<Point>, s: nat, w: nat, a: nat, b: nat)
    requires w >= 3 && InSeries(d, s, w)
    requires (a == s && b == s + w - 1) || (a == s + w - 1 && b == s)
    requires forall j :: s <= j < s + w && j != a ==> d[j].val < d[a].val
    requires forall j :: s <= j < s + w && j != b ==> d[b].val < d[j].val
    ensures Height(d, s, w) == 0.0
  {
    StrictExtremaFound(d, s, w, a, b);
    NotOccursBetween(d, d[a], s + 1, s + w - 1);
    NotOccursBetween(d, d[b], s + 1, s + w - 1);
  }

  /** The scans find a window's strict maximum and strict minimum. */
  lemma StrictExtremaFound(d: seq<Point>, s: nat, w: nat, a: nat, b: nat)
    requires w >= 1 && InSeries(d, s, w) && s <= a < s + w && s <= b < s + w
    requires forall j :: s <= j < s + w && j != a ==> d[j].val < d[a].val
    requires forall j :: s <= j < s + w && j != b ==> d[b].val < d[j].val
    ensures MaxBetween(d, s, s + w) == a && MinBetween(d, s, s + w) == b
  {
    MinBetweenIsFirstMin(d, s, s + w);
    MaxBetweenIsFirstMax(d, s, s + w);
  }

  /** A point that differs from each of d[lo], ..., d[hi - 1] does not occur among them. */
  lemma {:induction false} NotOccursBetween(d: seq<Point>, p: Point, lo: nat, hi: nat)
    requires lo <= hi <= |d|
    requires forall m :: lo <= m < hi ==> d[m] != p
    decreases hi - lo
    ensures !OccursBetween(d, p, lo, hi)
  {
    if lo < hi {
      NotOccursBetween(d, p, lo + 1, hi);
    }
  }
}
