/** The working copy of a series: (argument, value) points, built by zipping the inputs. */
module Series {

  /** One data point `[t, v]`: `arg` is the X coordinate, `val` the Y coordinate. */
  datatype Point = Point(arg: real, val: real)

  function Min(a: nat, b: nat): nat {
    if a <= b then a else b
  }

  /** The arguments used when the caller gives none: 0, 1, ..., n - 1. */
  function Range(n: nat): (r: seq<real>)
    ensures |r| == n
    ensures forall i :: 0 <= i < n ==> r[i] == i as real
  {
    seq(n, i => i as real)
  }

  /** An empty argument list is falsy, so it is replaced by the default range. */
  function EffectiveArguments(values: seq<real>, arguments: seq<real>): seq<real> {
    if |arguments| == 0 then Range(|values|) else arguments
  }

  /** Number of points once the longer of the two lists is truncated. */
  function EffectiveLength(values: seq<real>, arguments: seq<real>): nat {
    Min(|values|, |EffectiveArguments(values, arguments)|)
  }

  /** The working copy: one point per pair of the zipped arguments and values. */
  function Zip(values: seq<real>, arguments: seq<real>): (d: seq<Point>)
    ensures |d| == (if |arguments| == 0 then |values| else Min(|values|, |arguments|))
    ensures forall i :: 0 <= i < |d| ==>
      d[i].val == values[i] && d[i].arg == EffectiveArguments(values, arguments)[i]
  {
    var a := EffectiveArguments(values, arguments);
    var n := Min(|values|, |a|);
    seq(n, i requires 0 <= i < n => Point(a[i], values[i]))
  }

  /** The arguments of a series, in order. */
  function Args(d: seq<Point>): (a: seq<real>)
    ensures |a| == |d|
    ensures forall i :: 0 <= i < |d| ==> a[i] == d[i].arg
  {
    seq(|d|, i requires 0 <= i < |d| => d[i].arg)
  }

  /** The values of a series, in order. */
  function Vals(d: seq<Point>): (v: seq<real>)
    ensures |v| == |d|
    ensures forall i :: 0 <= i < |d| ==> v[i] == d[i].val
  {
    seq(|d|, i requires 0 <= i < |d| => d[i].val)
  }

  predicate StrictlyIncreasing(xs: seq<real>) {
    forall i, j :: 0 <= i < j < |xs| ==> xs[i] < xs[j]
  }

  predicate StrictlyDecreasing(xs: seq<real>) {
    forall i, j :: 0 <= i < j < |xs| ==> xs[i] > xs[j]
  }

  predicate Constant(xs: seq<real>) {
    forall i :: 0 <= i < |xs| ==> xs[i] == xs[0]
  }

  /** Two series of the same length whose points have the same arguments. */
  predicate SameArgs(d: seq<Point>, e: seq<Point>) {
    |d| == |e| && forall i :: 0 <= i < |d| ==> d[i].arg == e[i].arg
  }

  /** Series with the same arguments as a third have the same arguments as each other. */
  lemma SameArgsTransitive(c: seq<Point>, d: seq<Point>, e: seq<Point>)
    requires SameArgs(c, d) && SameArgs(d, e)
    ensures SameArgs(c, e)
  {
  }

  /** The arguments of the series strictly increase. */
  predicate ArgsIncreasing(d: seq<Point>) {
    forall i, j :: 0 <= i < j < |d| ==> d[i].arg < d[j].arg
  }

  /** The values of the series are all equal, strictly rise, or strictly fall. */
  predicate ValsFlatOrMonotone(d: seq<Point>) {
    || (forall i :: 0 <= i < |d| ==> d[i].val == d[0].val)
    || (forall i, j :: 0 <= i < j < |d| ==> d[i].val < d[j].val)
    || (forall i, j :: 0 <= i < j < |d| ==> d[i].val > d[j].val)
  }

  /** Zipping and unzipping: a series with the zipped arguments keeps the inputs'
      (effective) arguments, truncated to the shorter list. */
  lemma ZipThenUnzip(values: seq<real>, arguments: seq<real>, e: seq<Point>)
    requires SameArgs(e, Zip(values, arguments))
    ensures |e| == EffectiveLength(values, arguments)
    ensures Args(e) == EffectiveArguments(values, arguments)[..|e|]
  {
  }

  /** The zipped series keeps the inputs' values, truncated to the shorter list. */
  lemma ZipKeepsValues(values: seq<real>, arguments: seq<real>)
    ensures Vals(Zip(values, arguments)) == values[..|Zip(values, arguments)|]
  {
  }

  /** Shapes of the inputs carry over to the zipped series. */
  lemma {:induction false} ZipShapes(values: seq<real>, arguments: seq<real>)
    ensures StrictlyIncreasing(arguments) ==> ArgsIncreasing(Zip(values, arguments))
    ensures Constant(values) || StrictlyIncreasing(values) || StrictlyDecreasing(values)
      ==> ValsFlatOrMonotone(Zip(values, arguments))
  {
    var d := Zip(values, arguments);
    if |arguments| == 0 {
      RangeIncreasing(|values|);
    }
    var a := EffectiveArguments(values, arguments);
    if StrictlyIncreasing(arguments) {
      assert forall i, j :: 0 <= i < j < |d| ==> d[i].arg == a[i] && d[j].arg == a[j];
    }
    assert forall i :: 0 <= i < |d| ==> d[i].val == values[i];
  }

  /** Zipping the two halves of a series back together gives the series again,
      also when it is empty (then the default range is empty as well). */
  lemma {:induction false} UnzipThenZip(d: seq<Point>)
    ensures Zip(Vals(d), Args(d)) == d
  {
    var z := Zip(Vals(d), Args(d));
    assert |z| == |d|;
    forall i | 0 <= i < |d|
      ensures z[i] == d[i]
    {
      assert z[i].arg == Args(d)[i];
    }
  }

  /** The default arguments are strictly increasing, so every window has a positive breadth. */
  lemma {:induction false} RangeIncreasing(n: nat)
    ensures StrictlyIncreasing(Range(n))
  {
    var r := Range(n);
    forall i, j | 0 <= i < j < n
      ensures r[i] < r[j]
    {
      assert r[i] == i as real && r[j] == j as real;
    }
  }
}
