/** The detection step of one pass: one spike candidate per window, left to right. */
module Detection {
  import opened Results
  import opened Series
  import opened Metric

  /** A spike candidate: the window's start index and its height / breadth ratio.
      The source also keeps the window's points, but only their count (the window
      length) is used afterwards. */
  datatype Spike = Spike(start: nat, ratio: real)

  /** Number of windows of length `w` in a series of `n` points; the source's
      `range(n - (w - 1))` is empty when `n < w`. */
  function NumWindows(n: nat, w: nat): nat {
    if n >= w then n - w + 1 else 0
  }

  /** Some window of the series has equal first and last arguments. */
  predicate HasFlatWindow(d: seq<Point>, w: nat)
    requires w >= 1
  {
    exists i :: 0 <= i < NumWindows(|d|, w) && Breadth(d, i, w) == 0.0
  }

  /** The ratios of the candidates, in order. */
  function Ratios(spikes: seq<Spike>): (r: seq<real>)
    ensures |r| == |spikes|
  {
    if |spikes| == 0 then [] else [spikes[0].ratio] + Ratios(spikes[1..])
  }

  /** The i-th ratio is the i-th candidate's. */
  lemma {:induction false} RatiosAt(spikes: seq<Spike>)
    ensures forall i :: 0 <= i < |spikes| ==> Ratios(spikes)[i] == spikes[i].ratio
  {
    if |spikes| > 0 {
      RatiosAt(spikes[1..]);
      assert forall i :: 1 <= i < |spikes| ==> Ratios(spikes)[i] == Ratios(spikes[1..])[i - 1];
    }
  }

  /** Scan of the windows from index `i` on; the first window with breadth 0 stops
      the scan with a division by zero. */
  function DetectFrom(d: seq<Point>, w: nat, i: nat): (r: Result<seq<Spike>>)
    requires w >= 3 && i <= NumWindows(|d|, w)
    decreases NumWindows(|d|, w) - i
    ensures r.Err? ==> r.error == DivisionByZero
    ensures r.Ok? ==> |r.value| == NumWindows(|d|, w) - i
  {
    if i == NumWindows(|d|, w) then Ok([])
    else
      if Breadth(d, i, w) == 0.0 then Err(DivisionByZero)
      else
        match DetectFrom(d, w, i + 1)
        case Err(e) => Err(e)
        case Ok(rest) => Ok([Spike(i, Ratio(d, i, w))] + rest)
  }

  /** The scan from `i` fails exactly when a window from `i` on is flat. */
  lemma {:induction false} DetectFromFailsIff(d: seq<Point>, w: nat, i: nat)
    requires w >= 3 && i <= NumWindows(|d|, w)
    decreases NumWindows(|d|, w) - i
    ensures DetectFrom(d, w, i).Err? <==> exists j :: i <= j < NumWindows(|d|, w) && Breadth(d, j, w) == 0.0
  {
    if i < NumWindows(|d|, w) && Breadth(d, i, w) != 0.0 {
      DetectFromFailsIff(d, w, i + 1);
      assert forall j :: i <= j < NumWindows(|d|, w) && Breadth(d, j, w) == 0.0 ==> j != i;
    }
  }

  /** The k-th candidate of a successful scan from `i` describes window `i + k`. */
  lemma {:induction false} DetectFromSpikes(d: seq<Point>, w: nat, i: nat, k: nat)
    requires w >= 3 && i <= NumWindows(|d|, w)
    requires DetectFrom(d, w, i).Ok? && k < |DetectFrom(d, w, i).value|
    decreases k
    ensures Breadth(d, i + k, w) != 0.0
    ensures DetectFrom(d, w, i).value[k] == Spike(i + k, Ratio(d, i + k, w))
  {
    assert Breadth(d, i, w) != 0.0;
    var rest := DetectFrom(d, w, i + 1);
    assert rest.Ok? && DetectFrom(d, w, i).value == [Spike(i, Ratio(d, i, w))] + rest.value;
    if k > 0 {
      DetectFromSpikes(d, w, i + 1, k - 1);
      assert DetectFrom(d, w, i).value[k] == rest.value[k - 1];
    }
  }

  /** Every candidate describes a whole window of the series. */
  predicate Fits(spikes: seq<Spike>, n: nat, w: nat) {
    forall k :: 0 <= k < |spikes| ==> spikes[k].start + w <= n
  }

  /** All candidates of one pass, or the division by zero of the first flat window. */
  function Detect(d: seq<Point>, w: nat): (r: Result<seq<Spike>>)
    requires w >= 3
    ensures r.Err? ==> r.error == DivisionByZero
    ensures r.Ok? ==> |r.value| == NumWindows(|d|, w) && Fits(r.value, |d|, w)
  {
    var r := DetectFrom(d, w, 0);
    if r.Ok? then
      assert Fits(r.value, |d|, w) by {
        forall k | 0 <= k < |r.value|
          ensures r.value[k].start + w <= |d|
        {
          DetectFromSpikes(d, w, 0, k);
        }
      }
      r
    else r
  }

  /** Detection fails exactly when some window is flat. */
  lemma DetectFailsIff(d: seq<Point>, w: nat)
    requires w >= 3
    ensures Detect(d, w).Err? <==> HasFlatWindow(d, w)
  {
    DetectFromFailsIff(d, w, 0);
  }

  /** The k-th candidate of a successful detection is window k, with its ratio. */
  lemma {:induction false} DetectSpikes(d: seq<Point>, w: nat)
    requires w >= 3 && Detect(d, w).Ok?
    ensures forall k :: 0 <= k < |Detect(d, w).value| ==>
      && Detect(d, w).value[k].start == k
      && k + w <= |d|
      && Breadth(d, k, w) != 0.0
      && Detect(d, w).value[k].ratio == Ratio(d, k, w)
  {
    var r := Detect(d, w).value;
    forall k | 0 <= k < |r|
      ensures r[k].start == k && k + w <= |d| && Breadth(d, k, w) != 0.0 && r[k].ratio == Ratio(d, k, w)
    {
      DetectFromSpikes(d, w, 0, k);
    }
  }

  /** With strictly increasing arguments no window is flat, so detection succeeds,
      and every ratio is non-negative (a non-negative height over a positive breadth). */
  lemma {:induction false} RatiosNonNegative(d: seq<Point>, w: nat)
    requires w >= 3
    requires ArgsIncreasing(d)
    ensures Detect(d, w).Ok?
    ensures forall k :: 0 <= k < |Detect(d, w).value| ==> Detect(d, w).value[k].ratio >= 0.0
  {
    DetectFailsIff(d, w);
    forall i | 0 <= i < NumWindows(|d|, w)
      ensures Breadth(d, i, w) > 0.0
    {
      assert d[i].arg < d[i + w - 1].arg;
    }
    DetectSpikes(d, w);
    var spikes := Detect(d, w).value;
    forall k | 0 <= k < |spikes|
      ensures spikes[k].ratio >= 0.0
    {
      RatioSign(d, k, w);
    }
  }

  /** A series whose values are constant, strictly rising or strictly falling has
      every ratio equal to 0 (given strictly increasing arguments). */
  lemma {:induction false} RatiosZeroWhenFlatOrMonotone(d: seq<Point>, w: nat)
    requires w >= 3
    requires ArgsIncreasing(d) && ValsFlatOrMonotone(d)
    ensures Detect(d, w).Ok?
    ensures forall k :: 0 <= k < |Detect(d, w).value| ==> Detect(d, w).value[k].ratio == 0.0
  {
    RatiosNonNegative(d, w);
    DetectSpikes(d, w);
    var spikes := Detect(d, w).value;
    forall k | 0 <= k < |spikes|
      ensures spikes[k].ratio == 0.0
    {
      WindowHeightZero(d, w, k);
      RatioSign(d, k, w);
    }
  }

  /** Every window of such a series has height 0 and a positive breadth. */
  lemma {:induction false} WindowHeightZero(d: seq<Point>, w: nat, k: nat)
    requires w >= 3 && k + w <= |d|
    requires ArgsIncreasing(d) && ValsFlatOrMonotone(d)
    ensures Breadth(d, k, w) > 0.0
    ensures Height(d, k, w) == 0.0
  {
    assert d[k].arg < d[k + w - 1].arg;
    HeightZeroWhenFlatOrMonotone(d, k, w);
  }
}
