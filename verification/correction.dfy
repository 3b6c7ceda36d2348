/** The correction step of one pass: every candidate above the threshold has its
    interior points overwritten, in place and left to right, by the average of
    their current neighbours. */
module Correction {
  import opened Series
  import opened Detection

  /** The one write the source performs: point j takes the mean of its neighbours' current values. */
  function Write(d: seq<Point>, j: nat): (r: seq<Point>)
    requires 1 <= j && j + 1 < |d|
  {
    d[j := d[j].(val := (d[j - 1].val + d[j + 1].val) / 2.0)]
  }

  /** Point j of r holds the mean of r's left neighbour, already rewritten, and
      d's right neighbour, as it was before the window was corrected. */
  predicate Cascaded(r: seq<Point>, d: seq<Point>, j: int)
    requires 1 <= j && j + 1 < |r| && |r| == |d|
  {
    r[j].val == (r[j - 1].val + d[j + 1].val) / 2.0
  }

  /** The state after the first k interior points of the window starting at s have
      been written, in increasing order. Each point reads its left neighbour as
      already rewritten and its right neighbour as it was before the window. */
  function Smooth(d: seq<Point>, s: nat, k: nat): (r: seq<Point>)
    requires s + k + 1 < |d| || k == 0
    ensures |r| == |d|
  {
    if k == 0 then d
    else
      Write(Smooth(d, s, k - 1), s + k)
  }

  /** The smoothing keeps every argument and changes only the points s + 1, ..., s + k. */
  lemma {:induction false} SmoothFrame(d: seq<Point>, s: nat, k: nat)
    requires s + k + 1 < |d| || k == 0
    ensures SameArgs(Smooth(d, s, k), d)
    ensures forall j :: 0 <= j < |d| && !(s < j <= s + k) ==> Smooth(d, s, k)[j] == d[j]
  {
    if k > 0 {
      SmoothFrame(d, s, k - 1);
    }
  }

  /** The smoothing cascades: each rewritten point is the mean of its left neighbour's
      new value and its right neighbour's value from before the window was corrected. */
  lemma {:induction false} SmoothCascades(d: seq<Point>, s: nat, k: nat)
    requires s + k + 1 < |d|
    ensures forall j :: s < j <= s + k ==> Cascaded(Smooth(d, s, k), d, j)
  {
    if k > 0 {
      SmoothCascades(d, s, k - 1);
      SmoothFrame(d, s, k - 1);
      var e := Smooth(d, s, k - 1);
      var r := Smooth(d, s, k);
      assert e[s + k + 1] == d[s + k + 1];
      forall j | s < j <= s + k
        ensures Cascaded(r, d, j)
      {
        if j < s + k {
          assert Cascaded(e, d, j);
        }
      }
    }
  }

  /** One more write of the smoothing, spelled out as the array update it performs. */
  lemma SmoothStep(d: seq<Point>, s: nat, k: nat)
    requires 1 <= k && s + k + 1 < |d|
    ensures var e := Smooth(d, s, k - 1);
      Smooth(d, s, k) == e[s + k := e[s + k].(val := (e[s + k - 1].val + e[s + k + 1].val) / 2.0)]
  {
  }

  /** The candidate's window is corrected in this pass. */
  predicate Flagged(sp: Spike, threshold: real) {
    sp.ratio > threshold
  }

  /** Index j is an interior point of some flagged window among the first k candidates. */
  predicate Touched(spikes: seq<Spike>, k: nat, threshold: real, w: nat, j: int)
    requires k <= |spikes|
  {
    k > 0 &&
      (Touched(spikes, k - 1, threshold, w, j) ||
       (Flagged(spikes[k - 1], threshold) && spikes[k - 1].start < j < spikes[k - 1].start + w - 1))
  }

  /** `Touched` read as an existential over the candidates. */
  lemma {:induction false} TouchedSomeWindow(spikes: seq<Spike>, k: nat, threshold: real, w: nat, j: int)
    requires k <= |spikes|
    ensures Touched(spikes, k, threshold, w, j) <==>
      exists m :: 0 <= m < k && Flagged(spikes[m], threshold) && spikes[m].start < j < spikes[m].start + w - 1
  {
    if k > 0 {
      TouchedSomeWindow(spikes, k - 1, threshold, w, j);
    }
  }

  /** The series after the first k candidates have been processed, in order. */
  function CorrectPrefix(d: seq<Point>, spikes: seq<Spike>, threshold: real, w: nat, k: nat): (r: seq<Point>)
    requires w >= 2 && k <= |spikes| && Fits(spikes, |d|, w)
    ensures |r| == |d|
  {
    if k == 0 then d
    else
      var e := CorrectPrefix(d, spikes, threshold, w, k - 1);
      var sp := spikes[k - 1];
      if Flagged(sp, threshold) then Smooth(e, sp.start, w - 2) else e
  }

  /** Only interior points of flagged windows among the first k candidates change. */
  lemma {:induction false} CorrectPrefixFrame(d: seq<Point>, spikes: seq<Spike>, threshold: real, w: nat, k: nat)
    requires w >= 2 && k <= |spikes| && Fits(spikes, |d|, w)
    ensures SameArgs(CorrectPrefix(d, spikes, threshold, w, k), d)
    ensures forall j :: 0 <= j < |d| && !Touched(spikes, k, threshold, w, j) ==>
      CorrectPrefix(d, spikes, threshold, w, k)[j] == d[j]
  {
    if k > 0 {
      CorrectPrefixFrame(d, spikes, threshold, w, k - 1);
      var e := CorrectPrefix(d, spikes, threshold, w, k - 1);
      var sp := spikes[k - 1];
      if Flagged(sp, threshold) {
        SmoothFrame(e, sp.start, w - 2);
        SameArgsTransitive(Smooth(e, sp.start, w - 2), e, d);
      }
    }
  }

  /** The whole correction sweep of one pass. */
  function Correct(d: seq<Point>, spikes: seq<Spike>, threshold: real, w: nat): (r: seq<Point>)
    requires w >= 2 && Fits(spikes, |d|, w)
  {
    CorrectPrefix(d, spikes, threshold, w, |spikes|)
  }

  /** The sweep keeps the length and the arguments, and only writes interior points
      of flagged windows; as windows lie inside the series, the first and last
      points never change. */
  lemma {:induction false} CorrectFrame(d: seq<Point>, spikes: seq<Spike>, threshold: real, w: nat)
    requires w >= 2 && Fits(spikes, |d|, w)
    ensures SameArgs(Correct(d, spikes, threshold, w), d)
    ensures forall j :: 0 <= j < |d| && Correct(d, spikes, threshold, w)[j] != d[j] ==>
      exists m :: 0 <= m < |spikes| && Flagged(spikes[m], threshold) && spikes[m].start < j < spikes[m].start + w - 1
    ensures |d| > 0 ==> Correct(d, spikes, threshold, w)[0] == d[0]
    ensures |d| > 0 ==> Correct(d, spikes, threshold, w)[|d| - 1] == d[|d| - 1]
  {
    CorrectPrefixFrame(d, spikes, threshold, w, |spikes|);
    forall j | 0 <= j < |d|
      ensures Touched(spikes, |spikes|, threshold, w, j) <==>
        exists m :: 0 <= m < |spikes| && Flagged(spikes[m], threshold) && spikes[m].start < j < spikes[m].start + w - 1
    {
      TouchedSomeWindow(spikes, |spikes|, threshold, w, j);
    }
  }

  /** When no candidate exceeds the threshold, the sweep changes nothing. */
  lemma {:induction false} CorrectNothingFlagged(d: seq<Point>, spikes: seq<Spike>, threshold: real, w: nat)
    requires w >= 2 && Fits(spikes, |d|, w)
    requires forall k :: 0 <= k < |spikes| ==> spikes[k].ratio <= threshold
    ensures Correct(d, spikes, threshold, w) == d
  {
    var r := Correct(d, spikes, threshold, w);
    CorrectPrefixFrame(d, spikes, threshold, w, |spikes|);
    forall j | 0 <= j < |d|
      ensures r[j] == d[j]
    {
      TouchedSomeWindow(spikes, |spikes|, threshold, w, j);
    }
  }

  /** The sweep is a left fold: processing a + b is processing a, then b on the result. */
  lemma {:induction false} CorrectAppend(d: seq<Point>, a: seq<Spike>, b: seq<Spike>, threshold: real, w: nat)
    requires w >= 2 && Fits(a + b, |d|, w)
    ensures Fits(a, |d|, w) && Fits(b, |d|, w)
    ensures Correct(d, a + b, threshold, w) == Correct(Correct(d, a, threshold, w), b, threshold, w)
  {
    assert forall k :: 0 <= k < |a| ==> a[k] == (a + b)[k];
    assert forall k :: 0 <= k < |b| ==> b[k] == (a + b)[|a| + k];
    PrefixAppend(d, a, b, threshold, w, |b|);
  }

  lemma {:induction false} PrefixAppend(d: seq<Point>, a: seq<Spike>, b: seq<Spike>, threshold: real, w: nat, m: nat)
    requires w >= 2 && Fits(a + b, |d|, w) && Fits(a, |d|, w) && Fits(b, |d|, w) && m <= |b|
    ensures CorrectPrefix(d, a + b, threshold, w, |a| + m)
      == CorrectPrefix(Correct(d, a, threshold, w), b, threshold, w, m)
  {
    if m == 0 {
      PrefixOnlyReadsPrefix(d, a + b, a, threshold, w, |a|);
    } else {
      PrefixAppend(d, a, b, threshold, w, m - 1);
      var before := CorrectPrefix(d, a + b, threshold, w, |a| + m - 1);
      assert before == CorrectPrefix(Correct(d, a, threshold, w), b, threshold, w, m - 1);
      var sp := (a + b)[|a| + m - 1];
      assert sp == b[m - 1];
      assert CorrectPrefix(d, a + b, threshold, w, |a| + m)
        == if Flagged(sp, threshold) then Smooth(before, sp.start, w - 2) else before;
    }
  }

  /** The first k steps only look at the first k candidates. */
  lemma {:induction false} PrefixOnlyReadsPrefix(d: seq<Point>, s: seq<Spike>, t: seq<Spike>, threshold: real, w: nat, k: nat)
    requires w >= 2 && k <= |s| && k <= |t| && Fits(s, |d|, w) && Fits(t, |d|, w)
    requires s[..k] == t[..k]
    ensures CorrectPrefix(d, s, threshold, w, k) == CorrectPrefix(d, t, threshold, w, k)
  {
    if k > 0 {
      assert s[..k - 1] == t[..k - 1];
      assert s[k - 1] == s[..k][k - 1] == t[k - 1];
      PrefixOnlyReadsPrefix(d, s, t, threshold, w, k - 1);
    }
  }

  /** The inner loop of the sweep: the interior points of the window starting at s
      are rewritten in place, left to right. */
  method SmoothInPlace(a: array<Point>, s: nat, w: nat)
    requires w >= 2 && s + w <= a.Length
    modifies a
    ensures a[..] == Smooth(old(a[..]), s, w - 2)
  {
    ghost var before := a[..];
    var i := 1;
    while i < w - 1
      invariant 1 <= i <= w - 1
      invariant a[..] == Smooth(before, s, i - 1)
    {
      var j := s + i;
      SmoothStep(before, s, i);
      ghost var cur := a[..];
      var v := (a[j - 1].val + a[j + 1].val) / 2.0;
      assert v == (cur[j - 1].val + cur[j + 1].val) / 2.0;
      a[j] := a[j].(val := v);
      assert a[..] == cur[j := cur[j].(val := v)];
      i := i + 1;
    }
  }

  /** The sweep as the source runs it: in place on one working array, candidate by
      candidate and interior point by interior point, each write reading the array's
      current neighbours. */
  method Sweep(d: seq<Point>, spikes: seq<Spike>, threshold: real, w: nat) returns (r: seq<Point>)
    requires w >= 2 && Fits(spikes, |d|, w)
    ensures r == Correct(d, spikes, threshold, w)
  {
    var a := new Point[|d|](i requires 0 <= i < |d| => d[i]);
    assert a[..] == d;
    var k := 0;
    while k < |spikes|
      invariant 0 <= k <= |spikes|
      invariant a.Length == |d|
      invariant a[..] == CorrectPrefix(d, spikes, threshold, w, k)
    {
      var sp := spikes[k];
      if sp.ratio > threshold {
        SmoothInPlace(a, sp.start, w);
      }
      k := k + 1;
    }
    r := a[..];
  }
}
