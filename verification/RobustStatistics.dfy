/** `distribution` of `benchmarks/benchmark_gate.py`, over exact reals, and why a minority of
    outlying samples cannot move it. */
module RobustStatistics {
  import opened Options
  import opened Sequences
  import opened Sorting

  function MedianOfOrdered(o: seq<real>): real
    requires o != []
  {
    var m := |o| / 2;
    if |o| % 2 == 1 then o[m] else (o[m - 1] + o[m]) / 2.0
  }

  function Median(samples: seq<real>): real
    requires samples != []
  {
    MedianOfOrdered(Sort(RealLeq, samples))
  }

  function Abs(x: real): real {
    if x < 0.0 then -x else x
  }

  function Deviations(samples: seq<real>, centre: real): (d: seq<real>)
    ensures |d| == |samples|
  {
    if samples == [] then [] else [Abs(samples[0] - centre)] + Deviations(samples[1..], centre)
  }

  /** The median absolute deviation, taken over the ordered samples as the script does. */
  function Mad(samples: seq<real>): real
    requires samples != []
  {
    Median(Deviations(Sort(RealLeq, samples), Median(samples)))
  }

  /** `max(0, ceil(19 n / 20) - 1)`. */
  function P95Index(n: nat): (k: nat)
    requires n > 0
    ensures k < n
    ensures 20 * k < 19 * n <= 20 * (k + 1)
  {
    (19 * n + 19) / 20 - 1
  }

  datatype Distribution =
    Distribution(count: nat, median: real, p95: real, min: real, max: real, mad: real)

  /** Nothing for no samples, where the script raises. */
  function DistributionOf(samples: seq<real>): Option<Distribution> {
    if samples == [] then None
    else
      var o := Sort(RealLeq, samples);
      Some(Distribution(|samples|, Median(samples), o[P95Index(|o|)], o[0], o[|o| - 1], Mad(samples)))
  }

  // ---------------------------------------------------------------- order statistics

  function InRange(lo: real, hi: real): real -> bool {
    x => lo <= x <= hi
  }

  function AtMost(x: real): real -> bool {
    y => y <= x
  }

  lemma CountBefore(p: real -> bool, o: seq<real>, k: nat)
    requires k <= |o| && forall i | k <= i < |o| :: !p(o[i])
    ensures Count(p, o) <= k
  {
    CountConcat(p, o[..k], o[k..]);
    CountNone(p, o[k..]);
    SplitAt(o, k);
  }

  lemma CountAfter(p: real -> bool, o: seq<real>, k: nat)
    requires k <= |o| && forall i | 0 <= i < k :: !p(o[i])
    ensures Count(p, o) <= |o| - k
  {
    CountConcat(p, o[..k], o[k..]);
    CountNone(p, o[..k]);
    SplitAt(o, k);
  }

  /** If more than half of an ordered list lies in a range, so does each of its middle elements. */
  lemma MiddleInRange(o: seq<real>, lo: real, hi: real, k: nat)
    requires Ordered(RealLeq, o) && 2 * Count(InRange(lo, hi), o) > |o|
    requires k < |o| && |o| - 1 <= 2 * k + 1 && 2 * k <= |o|
    ensures lo <= o[k] <= hi
  {
    var p := InRange(lo, hi);
    if o[k] > hi {
      forall i | k <= i < |o|
        ensures !p(o[i])
      {
        assert i == k || RealLeq(o[k], o[i]);
      }
      CountBefore(p, o, k);
    }
    if o[k] < lo {
      forall i | 0 <= i < k + 1
        ensures !p(o[i])
      {
        assert i == k || RealLeq(o[i], o[k]);
      }
      CountAfter(p, o, k + 1);
    }
  }

  lemma MedianOfOrderedInRange(o: seq<real>, lo: real, hi: real)
    requires Ordered(RealLeq, o) && 2 * Count(InRange(lo, hi), o) > |o|
    ensures o != [] && lo <= MedianOfOrdered(o) <= hi
  {
    var m := |o| / 2;
    MiddleInRange(o, lo, hi, m);
    if |o| % 2 == 0 {
      MiddleInRange(o, lo, hi, m - 1);
    }
  }

  lemma MedianInRange(samples: seq<real>, lo: real, hi: real)
    requires 2 * Count(InRange(lo, hi), samples) > |samples|
    ensures samples != [] && lo <= Median(samples) <= hi
  {
    RealOrder();
    SortOrdered(RealLeq, samples);
    CountSort(RealLeq, InRange(lo, hi), samples);
    MedianOfOrderedInRange(Sort(RealLeq, samples), lo, hi);
  }

  lemma {:induction false} DeviationsInRange(samples: seq<real>, centre: real, lo: real, hi: real)
    requires lo <= centre <= hi
    ensures Count(InRange(0.0, hi - lo), Deviations(samples, centre)) >= Count(InRange(lo, hi), samples)
  {
    if samples != [] {
      DeviationsInRange(samples[1..], centre, lo, hi);
      assert Deviations(samples, centre)[1..] == Deviations(samples[1..], centre);
    }
  }

  lemma MedianDeviation(o: seq<real>, centre: real, lo: real, hi: real)
    requires lo <= centre <= hi && 2 * Count(InRange(lo, hi), o) > |o|
    ensures o != [] && 0.0 <= Median(Deviations(o, centre)) <= hi - lo
  {
    DeviationsInRange(o, centre, lo, hi);
    MedianInRange(Deviations(o, centre), 0.0, hi - lo);
  }

  /** The breakdown point of both statistics is one half: whatever the other samples are, a strict
      majority inside `[lo, hi]` confines the median to it and the MAD to its width. */
  lemma MajorityConfines(samples: seq<real>, lo: real, hi: real)
    requires 2 * Count(InRange(lo, hi), samples) > |samples|
    ensures samples != [] && lo <= Median(samples) <= hi && 0.0 <= Mad(samples) <= hi - lo
  {
    MedianInRange(samples, lo, hi);
    CountSort(RealLeq, InRange(lo, hi), samples);
    MedianDeviation(Sort(RealLeq, samples), Median(samples), lo, hi);
  }

  /** The statistics depend on the samples only, not on the order they were taken in. */
  lemma DistributionIgnoresOrder(a: seq<real>, b: seq<real>)
    requires multiset(a) == multiset(b)
    ensures DistributionOf(a) == DistributionOf(b)
  {
    RealOrder();
    SortDependsOnElements(RealLeq, a, b);
    assert |a| == |Sort(RealLeq, a)| == |Sort(RealLeq, b)| == |b|;
  }

  /** At least nineteen samples in twenty are at or below the reported p95, and the minimum and
      maximum bound every sample. */
  lemma P95Covers(samples: seq<real>)
    requires samples != []
    ensures var d := DistributionOf(samples).value;
            && 20 * Count(AtMost(d.p95), samples) >= 19 * |samples|
            && forall x | x in samples :: d.min <= x <= d.max
  {
    RealOrder();
    SortOrdered(RealLeq, samples);
    var o := Sort(RealLeq, samples);
    AtMostPrefix(o, P95Index(|o|));
    CountSort(RealLeq, AtMost(o[P95Index(|o|)]), samples);
    forall x | x in samples
      ensures o[0] <= x <= o[|o| - 1]
    {
      EndsBound(samples, o, x);
    }
  }

  lemma AtMostPrefix(o: seq<real>, k: nat)
    requires Ordered(RealLeq, o) && k < |o|
    ensures Count(AtMost(o[k]), o) >= k + 1
  {
    var p := AtMost(o[k]);
    forall i | 0 <= i < k + 1
      ensures p(o[i])
    {
      assert i == k || RealLeq(o[i], o[k]);
    }
    CountPrefix(p, o, k + 1);
  }

  lemma CountPrefix(p: real -> bool, o: seq<real>, n: nat)
    requires n <= |o| && forall i | 0 <= i < n :: p(o[i])
    ensures Count(p, o) >= n
  {
    CountAll(p, o[..n]);
    CountConcat(p, o[..n], o[n..]);
    SplitAt(o, n);
  }

  lemma EndsBound(samples: seq<real>, o: seq<real>, x: real)
    requires Ordered(RealLeq, o) && multiset(o) == multiset(samples) && x in samples
    ensures o != [] && o[0] <= x <= o[|o| - 1]
  {
    assert x in multiset(samples);
    assert x in multiset(o);
    var i :| 0 <= i < |o| && o[i] == x;
    assert i == 0 || RealLeq(o[0], o[i]);
    assert i == |o| - 1 || RealLeq(o[i], o[|o| - 1]);
  }

  lemma {:induction false} CountAll(p: real -> bool, s: seq<real>)
    requires forall i | 0 <= i < |s| :: p(s[i])
    ensures Count(p, s) == |s|
  {
    if s != [] {
      CountAll(p, s[1..]);
    }
  }
}
