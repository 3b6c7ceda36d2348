/** The despiking transform: argument defaulting and zipping, then a number of
    detect / threshold / correct passes over one working copy. */
module Despiker {
  import opened Results
  import opened Series
  import opened Metric
  import opened Detection
  import opened Threshold
  import opened Correction

  /** The first assertion: the window is odd and at least 3 long. */
  predicate ValidWindow(window: int) {
    window >= 3 && window % 2 == 1
  }

  /** The second assertion: only the two threshold methods are accepted. */
  predicate ValidMethod(methodName: string) {
    methodName == "median" || methodName == "mean"
  }

  function MethodOf(methodName: string): Method {
    if methodName == "median" then Median else Mean
  }

  /** A pass fails when some window is flat (division by zero), or when the median
      is asked of one or two windows (index past the end). Both depend only on the
      arguments and the length, which no pass changes. */
  predicate PassFails(d: seq<Point>, w: nat, m: Method)
    requires w >= 3
  {
    HasFlatWindow(d, w) || (m == Median && 1 <= NumWindows(|d|, w) <= 2)
  }

  /** One pass: detect every window's ratio, compute the threshold, correct the
      windows above it. With no windows the pass changes nothing. */
  function Pass(d: seq<Point>, w: nat, m: Method): (r: Result<seq<Point>>)
    requires w >= 3
    ensures r.Ok? ==> SameArgs(r.value, d)
    ensures r.Ok? && |d| > 0 ==> r.value[0] == d[0] && r.value[|d| - 1] == d[|d| - 1]
  {
    match Detect(d, w)
    case Err(e) => Err(e)
    case Ok(spikes) =>
      if |spikes| == 0 then Ok(d)
      else
        match ThresholdOf(m, Ratios(spikes))
        case Err(e) => Err(e)
        case Ok(threshold) =>
          CorrectFrame(d, spikes, threshold, w);
          Ok(Correct(d, spikes, threshold, w))
  }

  /** `n` applications of a step that may fail, each on the previous output; the
      first failure ends the run. This is the shape of the multipass loop. */
  function Iterate(step: seq<Point> -> Result<seq<Point>>, d: seq<Point>, n: nat): Result<seq<Point>>
    decreases n
  {
    if n == 0 then Ok(d)
    else
      match step(d)
      case Err(e) => Err(e)
      case Ok(e) => Iterate(step, e, n - 1)
  }

  /** Iteration composes: p + q steps are q steps run on the result of p steps. */
  lemma {:induction false} IterateCompose(step: seq<Point> -> Result<seq<Point>>, d: seq<Point>, p: nat, q: nat)
    decreases p
    ensures Iterate(step, d, p).Err? ==> Iterate(step, d, p + q) == Iterate(step, d, p)
    ensures Iterate(step, d, p).Ok? ==> Iterate(step, d, p + q) == Iterate(step, Iterate(step, d, p).value, q)
  {
    if p > 0 && step(d).Ok? {
      IterateCompose(step, step(d).value, p - 1, q);
      assert Iterate(step, d, p + q) == Iterate(step, step(d).value, p - 1 + q);
    }
  }

  /** A series that one step leaves as it is, every number of steps leaves as it is. */
  lemma {:induction false} IterateFixpoint(step: seq<Point> -> Result<seq<Point>>, d: seq<Point>, n: nat)
    requires step(d) == Ok(d)
    ensures Iterate(step, d, n) == Ok(d)
  {
    if n > 0 {
      IterateFixpoint(step, d, n - 1);
    }
  }

  /** One pass as a step of the loop. */
  function PassStep(w: nat, m: Method): seq<Point> -> Result<seq<Point>>
    requires w >= 3
  {
    d => Pass(d, w, m)
  }

  /** `n` passes in a row, each on the output of the previous one. */
  function Passes(d: seq<Point>, w: nat, m: Method, n: nat): Result<seq<Point>>
    requires w >= 3
  {
    Iterate(PassStep(w, m), d, n)
  }

  /** The first of `n > 0` passes, then the remaining ones on its output. */
  lemma PassesUnfold(d: seq<Point>, w: nat, m: Method, n: nat)
    requires w >= 3 && n > 0
    ensures Pass(d, w, m).Err? ==> Passes(d, w, m, n) == Pass(d, w, m)
    ensures Pass(d, w, m).Ok? ==> Passes(d, w, m, n) == Passes(Pass(d, w, m).value, w, m, n - 1)
  {
    assert PassStep(w, m)(d) == Pass(d, w, m);
  }

  /** Any number of passes keeps the length, the arguments and both end points. */
  lemma {:induction false} PassesFrame(d: seq<Point>, w: nat, m: Method, n: nat)
    requires w >= 3
    decreases n
    ensures Passes(d, w, m, n).Ok? ==> SameArgs(Passes(d, w, m, n).value, d)
    ensures Passes(d, w, m, n).Ok? && |d| > 0 ==>
      Passes(d, w, m, n).value[0] == d[0] && Passes(d, w, m, n).value[|d| - 1] == d[|d| - 1]
  {
    if n > 0 && Pass(d, w, m).Ok? {
      var e := Pass(d, w, m).value;
      PassesUnfold(d, w, m, n);
      PassesFrame(e, w, m, n - 1);
      if Passes(e, w, m, n - 1).Ok? {
        SameArgsTransitive(Passes(e, w, m, n - 1).value, e, d);
      }
    }
  }

  /** The despiker: the arguments and values of the zipped series after `multipass`
      passes (none when multipass is 0 or negative). The parameters default as in the
      source: no arguments, a window of 5, one pass, the "mean" threshold. */
  function Despiked(values: seq<real>, arguments: seq<real> := [], window: int := 5, multipass: int := 1, methodName: string := "mean")
    : (r: Result<(seq<real>, seq<real>)>)
    ensures r.Ok? ==> |r.value.0| == |r.value.1| == EffectiveLength(values, arguments)
    ensures r.Ok? ==> r.value.0 == EffectiveArguments(values, arguments)[..EffectiveLength(values, arguments)]
    ensures r.Ok? && EffectiveLength(values, arguments) > 0 ==>
      && r.value.1[0] == values[0]
      && r.value.1[EffectiveLength(values, arguments) - 1] == values[EffectiveLength(values, arguments) - 1]
  {
    if !ValidWindow(window) then Err(BadWindow)
    else if !ValidMethod(methodName) then Err(BadMethod)
    else
      var d := Zip(values, arguments);
      var n := if multipass > 0 then multipass else 0;
      PassesFrame(d, window, MethodOf(methodName), n);
      match Passes(d, window, MethodOf(methodName), n)
      case Err(e) => Err(e)
      case Ok(e) =>
        ZipThenUnzip(values, arguments, e);
        Ok((Args(e), Vals(e)))
  }

  /** The failure condition of one pass. */
  lemma PassFailsIff(d: seq<Point>, w: nat, m: Method)
    requires w >= 3
    ensures Pass(d, w, m).Err? <==> PassFails(d, w, m)
  {
    DetectFailsIff(d, w);
  }

  /** Whether a pass fails is decided by the arguments alone. */
  lemma {:induction false} PassFailsOnlyOnArgs(d: seq<Point>, e: seq<Point>, w: nat, m: Method)
    requires w >= 3 && SameArgs(d, e)
    ensures PassFails(d, w, m) <==> PassFails(e, w, m)
  {
    forall i | 0 <= i < NumWindows(|d|, w)
      ensures Breadth(d, i, w) == Breadth(e, i, w)
    {
      assert d[i].arg == e[i].arg && d[i + w - 1].arg == e[i + w - 1].arg;
    }
  }

  /** A run of passes fails exactly when its first pass does: later passes see the
      same arguments and length. */
  lemma {:induction false} PassesFailIff(d: seq<Point>, w: nat, m: Method, n: nat)
    requires w >= 3
    decreases n
    ensures Passes(d, w, m, n).Err? <==> n > 0 && PassFails(d, w, m)
    ensures Passes(d, w, m, n).Err? ==> Passes(d, w, m, n) == Pass(d, w, m)
  {
    PassFailsIff(d, w, m);
    if n > 0 {
      PassesUnfold(d, w, m, n);
    }
    if n > 0 && Pass(d, w, m).Ok? {
      var e := Pass(d, w, m).value;
      PassesFailIff(e, w, m, n - 1);
      PassFailsOnlyOnArgs(d, e, w, m);
    }
  }

  /** Passes compose: p + q passes are q passes run on the result of p passes. */
  lemma PassesCompose(d: seq<Point>, w: nat, m: Method, p: nat, q: nat)
    requires w >= 3
    ensures Passes(d, w, m, p).Err? ==> Passes(d, w, m, p + q) == Passes(d, w, m, p)
    ensures Passes(d, w, m, p).Ok? ==> Passes(d, w, m, p + q) == Passes(Passes(d, w, m, p).value, w, m, q)
  {
    IterateCompose(PassStep(w, m), d, p, q);
  }

  /** A series that one pass leaves as it is, every further pass leaves as it is. */
  lemma PassesFixpoint(d: seq<Point>, w: nat, m: Method, n: nat)
    requires w >= 3 && Pass(d, w, m) == Ok(d)
    ensures Passes(d, w, m, n) == Ok(d)
  {
    assert PassStep(w, m)(d) == Pass(d, w, m);
    IterateFixpoint(PassStep(w, m), d, n);
  }

  /** The two assertions, checked in order before anything else. */
  lemma ConfigurationErrors(values: seq<real>, arguments: seq<real>, window: int, multipass: int, methodName: string)
    ensures Despiked(values, arguments, window, multipass, methodName) == Err(BadWindow)
      <==> !(window >= 3 && window % 2 == 1)
    ensures Despiked(values, arguments, window, multipass, methodName) == Err(BadMethod)
      <==> window >= 3 && window % 2 == 1 && methodName != "median" && methodName != "mean"
  {
    var r := Despiked(values, arguments, window, multipass, methodName);
    if ValidWindow(window) && ValidMethod(methodName) {
      PassesFailIff(Zip(values, arguments), window, MethodOf(methodName), if multipass > 0 then multipass else 0);
    }
  }

  /** The complete failure condition of a call in terms of its inputs: a bad
      configuration, or at least one pass over a series with a flat window, or the
      median over exactly one or two windows. */
  lemma {:induction false} FailureCondition(values: seq<real>, arguments: seq<real>, window: int, multipass: int, methodName: string)
    requires ValidWindow(window) && ValidMethod(methodName)
    ensures var a := EffectiveArguments(values, arguments);
      var n := NumWindows(EffectiveLength(values, arguments), window);
      Despiked(values, arguments, window, multipass, methodName).Err?
      <==> (multipass > 0 &&
        ((exists i :: 0 <= i < n && a[i + window - 1] == a[i]) || (methodName == "median" && 1 <= n <= 2)))
  {
    var d := Zip(values, arguments);
    var a := EffectiveArguments(values, arguments);
    var n := NumWindows(|d|, window);
    PassesFailIff(d, window, MethodOf(methodName), if multipass > 0 then multipass else 0);
    FlatWindowInInputs(values, arguments, window);
  }

  /** With every parameter at its default, a call never fails: the default arguments
      0, 1, ..., n - 1 make no window flat, and the mean needs no index. */
  lemma {:induction false} DefaultCallSucceeds(values: seq<real>)
    ensures Despiked(values).Ok?
    ensures Despiked(values).value.0 == Range(|values|)
  {
    var a := Range(|values|);
    FailureCondition(values, [], 5, 1, "mean");
    forall i | 0 <= i < NumWindows(|values|, 5)
      ensures a[i + 5 - 1] != a[i]
    {
      assert a[i + 4] == (i + 4) as real && a[i] == i as real;
    }
  }

  /** A window of the zipped series is flat exactly when its first and last effective
      arguments are equal. */
  lemma {:induction false} FlatWindowInInputs(values: seq<real>, arguments: seq<real>, window: nat)
    requires window >= 3
    ensures var a := EffectiveArguments(values, arguments);
      HasFlatWindow(Zip(values, arguments), window)
      <==> exists i :: 0 <= i < NumWindows(EffectiveLength(values, arguments), window) && a[i + window - 1] == a[i]
  {
    var d := Zip(values, arguments);
    var a := EffectiveArguments(values, arguments);
    var n := NumWindows(|d|, window);
    if HasFlatWindow(d, window) {
      var i :| 0 <= i < n && Breadth(d, i, window) == 0.0;
      assert d[i].arg == a[i] && d[i + window - 1].arg == a[i + window - 1];
    }
    if exists i :: 0 <= i < n && a[i + window - 1] == a[i] {
      var i :| 0 <= i < n && a[i + window - 1] == a[i];
      assert d[i].arg == a[i] && d[i + window - 1].arg == a[i + window - 1];
      assert Breadth(d, i, window) == 0.0;
    }
  }

  /** No passes, or a series shorter than the window: the values come back unchanged. */
  lemma {:induction false} UnchangedWithoutPassesOrWindows(values: seq<real>, arguments: seq<real>, window: int, multipass: int, methodName: string)
    requires ValidWindow(window) && ValidMethod(methodName)
    requires multipass <= 0 || EffectiveLength(values, arguments) < window
    ensures var n := EffectiveLength(values, arguments);
      Despiked(values, arguments, window, multipass, methodName)
      == Ok((EffectiveArguments(values, arguments)[..n], values[..n]))
  {
    var d := Zip(values, arguments);
    ZipThenUnzip(values, arguments, d);
    ZipKeepsValues(values, arguments);
    var m := MethodOf(methodName);
    if multipass > 0 {
      assert Detect(d, window) == Ok([]);
      PassesFixpoint(d, window, m, multipass);
    }
  }

  /** Constant values, or strictly rising or falling ones, with strictly increasing
      arguments: every window has height 0, so no ratio exceeds the threshold and no
      point is ever corrected. Under "mean" the call always succeeds. */
  lemma {:induction false} UnchangedWhenFlatOrMonotone(values: seq<real>, arguments: seq<real>, window: int, multipass: int, methodName: string)
    requires ValidWindow(window) && ValidMethod(methodName)
    requires StrictlyIncreasing(arguments)
    requires Constant(values) || StrictlyIncreasing(values) || StrictlyDecreasing(values)
    ensures var n := EffectiveLength(values, arguments);
      var r := Despiked(values, arguments, window, multipass, methodName);
      && (r.Ok? ==> r.value.1 == values[..n])
      && (methodName == "mean" ==> r.Ok?)
  {
    var d := Zip(values, arguments);
    var m := MethodOf(methodName);
    ZipThenUnzip(values, arguments, d);
    ZipKeepsValues(values, arguments);
    ZipShapes(values, arguments);
    RatiosZeroWhenFlatOrMonotone(d, window);
    var spikes := Detect(d, window).value;
    if |spikes| > 0 && ThresholdOf(m, Ratios(spikes)).Ok? {
      RatiosAt(spikes);
      UniformThreshold(m, Ratios(spikes), 0.0);
      CorrectNothingFlagged(d, spikes, ThresholdOf(m, Ratios(spikes)).value, window);
    }
    if Pass(d, window, m).Ok? {
      PassesFixpoint(d, window, m, if multipass > 0 then multipass else 0);
    } else {
      PassesFailIff(d, window, m, if multipass > 0 then multipass else 0);
    }
  }

  /** Two calls with one pass each, the second on the first's output, equal one call
      with two passes. */
  lemma {:induction false} TwoSinglePassesEqualOneDoublePass(values: seq<real>, arguments: seq<real>, window: int, methodName: string)
    requires ValidWindow(window) && ValidMethod(methodName)
    ensures var first := Despiked(values, arguments, window, 1, methodName);
      Despiked(values, arguments, window, 2, methodName) ==
        match first
        case Err(e) => Err(e)
        case Ok(out) => Despiked(out.1, out.0, window, 1, methodName)
  {
    var d := Zip(values, arguments);
    var m := MethodOf(methodName);
    PassesCompose(d, window, m, 1, 1);
    if Passes(d, window, m, 1).Ok? {
      UnzipThenZip(Passes(d, window, m, 1).value);
    }
  }

  /** One pass as the source runs it: detection, the threshold, then the in-place sweep. */
  method RunPass(d: seq<Point>, w: nat, m: Method) returns (r: Result<seq<Point>>)
    requires w >= 3
    ensures r == Pass(d, w, m)
  {
    var spikes := Detect(d, w);
    if spikes.Err? {
      return Err(spikes.error);
    }
    if |spikes.value| == 0 {
      return Ok(d);
    }
    var threshold := ThresholdOf(m, Ratios(spikes.value));
    if threshold.Err? {
      return Err(threshold.error);
    }
    var e := Sweep(d, spikes.value, threshold.value, w);
    return Ok(e);
  }

  /** The passes as a loop: each pass runs on the previous pass's output, and the
      first failing pass ends the loop. */
  method RunPasses(d: seq<Point>, w: nat, m: Method, n: nat) returns (r: Result<seq<Point>>)
    requires w >= 3
    ensures r == Passes(d, w, m, n)
  {
    r := Ok(d);
    var p := 0;
    while p < n && r.Ok?
      invariant 0 <= p <= n
      invariant r == Passes(d, w, m, p)
      invariant r.Err? ==> r == Passes(d, w, m, n)
    {
      PassesCompose(d, w, m, p, 1);
      PassesUnfold(r.value, w, m, 1);
      r := RunPass(r.value, w, m);
      p := p + 1;
      if r.Err? {
        PassesCompose(d, w, m, p, n - p);
      }
    }
  }

  /** The despiker as the source runs it: the two assertions, the working copy, the passes. */
  method Despike(values: seq<real>, arguments: seq<real> := [], window: int := 5, multipass: int := 1, methodName: string := "mean")
    returns (r: Result<(seq<real>, seq<real>)>)
    ensures r == Despiked(values, arguments, window, multipass, methodName)
  {
    if !ValidWindow(window) {
      return Err(BadWindow);
    }
    if !ValidMethod(methodName) {
      return Err(BadMethod);
    }
    var d := Zip(values, arguments);
    var n := if multipass > 0 then multipass else 0;
    var passes := RunPasses(d, window, MethodOf(methodName), n);
    PassesFrame(d, window, MethodOf(methodName), n);
    if passes.Err? {
      return Err(passes.error);
    }
    ZipThenUnzip(values, arguments, passes.value);
    return Ok((Args(passes.value), Vals(passes.value)));
  }
}
