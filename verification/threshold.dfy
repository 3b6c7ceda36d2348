/** The per-pass spike threshold: the mean of all ratios, or the ratio at sorted
    rank count / 2 + 1 (the source's "median"). */
module Threshold {
  import opened Results

  datatype Method = Mean | Median

  function Sum(xs: seq<real>): real {
    if |xs| == 0 then 0.0 else xs[0] + Sum(xs[1..])
  }

  predicate Sorted(xs: seq<real>) {
    forall i, j :: 0 <= i < j < |xs| ==> xs[i] <= xs[j]
  }

  /** Number of elements strictly below `t`. */
  function CountBelow(xs: seq<real>, t: real): nat {
    if |xs| == 0 then 0 else (if xs[0] < t then 1 else 0) + CountBelow(xs[1..], t)
  }

  /** Number of elements at or below `t`. */
  function CountAtMost(xs: seq<real>, t: real): nat {
    if |xs| == 0 then 0 else (if xs[0] <= t then 1 else 0) + CountAtMost(xs[1..], t)
  }

  /** Places `x` before the first element it does not exceed. */
  function Insert(x: real, xs: seq<real>): (r: seq<real>)
    ensures |r| == |xs| + 1
  {
    if |xs| == 0 then [x]
    else if x <= xs[0] then [x] + xs
    else [xs[0]] + Insert(x, xs[1..])
  }

  /** Inserting adds exactly the one element. */
  lemma {:induction false} InsertPermutes(x: real, xs: seq<real>)
    ensures multiset(Insert(x, xs)) == multiset(xs) + multiset{x}
  {
    if |xs| > 0 && x > xs[0] {
      InsertPermutes(x, xs[1..]);
      assert xs == [xs[0]] + xs[1..];
    }
  }

  /** Inserting into a sorted sequence keeps it sorted. */
  lemma {:induction false} InsertSorted(x: real, xs: seq<real>)
    requires Sorted(xs)
    ensures Sorted(Insert(x, xs))
    ensures Insert(x, xs)[0] == if |xs| == 0 || x <= xs[0] then x else xs[0]
  {
    if |xs| > 0 && x > xs[0] {
      var tail := xs[1..];
      assert Sorted(tail) by {
        assert forall i :: 0 <= i < |tail| ==> tail[i] == xs[i + 1];
      }
      InsertSorted(x, tail);
      assert |tail| > 0 ==> xs[0] <= tail[0];
      ConsSorted(xs[0], Insert(x, tail));
    } else {
      ConsSorted(x, xs);
    }
  }

  /** A sorted sequence stays sorted behind an element that does not exceed its head. */
  lemma ConsSorted(a: real, ys: seq<real>)
    requires Sorted(ys) && (|ys| == 0 || a <= ys[0])
    ensures Sorted([a] + ys)
  {
    var r := [a] + ys;
    forall i, j | 0 <= i < j < |r|
      ensures r[i] <= r[j]
    {
      assert r[j] == ys[j - 1];
      if i > 0 {
        assert r[i] == ys[i - 1];
      } else {
        assert ys[0] <= ys[j - 1];
      }
    }
  }

  /** Ascending order of the ratios (`sorted(spikes, key=ratio)`, keeping only the ratios). */
  function Sort(xs: seq<real>): (r: seq<real>)
    ensures |r| == |xs|
  {
    if |xs| == 0 then [] else Insert(xs[0], Sort(xs[1..]))
  }

  /** Sorting is a permutation. */
  lemma {:induction false} SortPermutes(xs: seq<real>)
    ensures multiset(Sort(xs)) == multiset(xs)
  {
    if |xs| > 0 {
      SortPermutes(xs[1..]);
      InsertPermutes(xs[0], Sort(xs[1..]));
      assert xs == [xs[0]] + xs[1..];
    }
  }

  /** The result of `Sort` is in ascending order. */
  lemma {:induction false} SortSorted(xs: seq<real>)
    ensures Sorted(Sort(xs))
  {
    if |xs| > 0 {
      SortSorted(xs[1..]);
      InsertSorted(xs[0], Sort(xs[1..]));
    }
  }

  /** The sorted position the source reads for the "median". */
  function MedianRank(n: nat): nat {
    n / 2 + 1
  }

  /** The threshold of one pass, computed from the ratios of all its windows. The
      "median" indexes the sorted ratios at count / 2 + 1, which lies past the end
      when there are only one or two windows. */
  function ThresholdOf(m: Method, ratios: seq<real>): (r: Result<real>)
    requires |ratios| > 0
    ensures r.Err? <==> m == Median && |ratios| <= 2
    ensures r.Err? ==> r.error == IndexOutOfRange
  {
    match m
    case Median =>
      var k := MedianRank(|ratios|);
      if k < |ratios| then Ok(Sort(ratios)[k]) else Err(IndexOutOfRange)
    case Mean =>
      Ok(Sum(ratios) / |ratios| as real)
  }

  /** The "median" threshold is one of the ratios. */
  lemma MedianIsARatio(ratios: seq<real>)
    requires |ratios| >= 3
    ensures ThresholdOf(Median, ratios).Ok?
    ensures ThresholdOf(Median, ratios).value in ratios
  {
    var sorted := Sort(ratios);
    SortPermutes(ratios);
    assert sorted[MedianRank(|ratios|)] in multiset(ratios);
  }

  /** If every ratio is above `t`, so is their sum above |xs| * t. */
  lemma {:induction false} SumAbove(xs: seq<real>, t: real)
    requires |xs| > 0
    requires forall i :: 0 <= i < |xs| ==> xs[i] > t
    ensures Sum(xs) > |xs| as real * t
  {
    if |xs| > 1 {
      SumAbove(xs[1..], t);
    }
  }

  /** The sum of n copies of c is n * c. */
  lemma {:induction false} SumConstant(xs: seq<real>, c: real)
    requires forall i :: 0 <= i < |xs| ==> xs[i] == c
    ensures Sum(xs) == |xs| as real * c
  {
    if |xs| > 0 {
      SumConstant(xs[1..], c);
    }
  }

  /** Some ratio is never above the threshold: under "mean" the smallest ratio is at
      most the mean, and under "median" the threshold is itself one of the ratios.
      So at least one window of each pass is left uncorrected. */
  lemma {:induction false} SomeRatioNotAbove(m: Method, ratios: seq<real>)
    requires |ratios| > 0 && ThresholdOf(m, ratios).Ok?
    ensures exists i :: 0 <= i < |ratios| && ratios[i] <= ThresholdOf(m, ratios).value
  {
    var t := ThresholdOf(m, ratios).value;
    if m == Median {
      MedianIsARatio(ratios);
    } else {
      if forall i :: 0 <= i < |ratios| ==> ratios[i] > t {
        SumAbove(ratios, t);
        assert false;
      }
    }
  }

  /** If all ratios are equal, the threshold is that common ratio, so none exceeds it. */
  lemma {:induction false} UniformThreshold(m: Method, ratios: seq<real>, c: real)
    requires |ratios| > 0 && ThresholdOf(m, ratios).Ok?
    requires forall i :: 0 <= i < |ratios| ==> ratios[i] == c
    ensures ThresholdOf(m, ratios).value == c
  {
    if m == Median {
      MedianIsARatio(ratios);
    } else {
      SumConstant(ratios, c);
    }
  }

  /** Sorting keeps how many elements lie below, or at or below, any value. */
  lemma {:induction false} InsertCounts(x: real, xs: seq<real>, t: real)
    ensures CountBelow(Insert(x, xs), t) == CountBelow(xs, t) + (if x < t then 1 else 0)
    ensures CountAtMost(Insert(x, xs), t) == CountAtMost(xs, t) + (if x <= t then 1 else 0)
  {
    if |xs| > 0 && x > xs[0] {
      InsertCounts(x, xs[1..], t);
      var r := Insert(x, xs);
      assert r[1..] == Insert(x, xs[1..]);
    } else if |xs| > 0 {
      assert (Insert(x, xs))[1..] == xs;
    }
  }

  lemma {:induction false} SortCounts(xs: seq<real>, t: real)
    ensures CountBelow(Sort(xs), t) == CountBelow(xs, t)
    ensures CountAtMost(Sort(xs), t) == CountAtMost(xs, t)
  {
    if |xs| > 0 {
      SortCounts(xs[1..], t);
      InsertCounts(xs[0], Sort(xs[1..]), t);
    }
  }

  /** In a sorted sequence the element at index k has at most k elements strictly
      below it and at least k + 1 at or below it. */
  lemma {:induction false} SortedRank(xs: seq<real>, k: nat)
    requires Sorted(xs) && k < |xs|
    ensures CountBelow(xs, xs[k]) <= k
    ensures CountAtMost(xs, xs[k]) >= k + 1
  {
    if k == 0 {
      NoneBelow(xs, xs[0]);
    } else {
      SortedRank(xs[1..], k - 1);
    }
  }

  lemma {:induction false} NoneBelow(xs: seq<real>, t: real)
    requires forall i :: 0 <= i < |xs| ==> xs[i] >= t
    ensures CountBelow(xs, t) == 0
  {
    if |xs| > 0 {
      NoneBelow(xs[1..], t);
    }
  }

  /** The "median" threshold is the order statistic of rank count / 2 + 1 (counted
      from 0): at most that many ratios lie strictly below it, and more than that
      many lie at or below it. */
  lemma {:induction false} MedianIsRankStatistic(ratios: seq<real>)
    requires |ratios| >= 3
    ensures ThresholdOf(Median, ratios).Ok?
    ensures var t := ThresholdOf(Median, ratios).value;
      CountBelow(ratios, t) <= MedianRank(|ratios|) < CountAtMost(ratios, t)
  {
    var sorted := Sort(ratios);
    var k := MedianRank(|ratios|);
    SortSorted(ratios);
    SortedRank(sorted, k);
    SortCounts(ratios, sorted[k]);
  }
}
