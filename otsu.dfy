/**
 * Otsu's threshold selection (N. Otsu, IEEE Trans. SMC, 1979) over a 256-bin grey-level
 * histogram: the cut that maximises the between-class variance wB * wF * (mB - mF)^2.
 * Means are exact rationals (`real`).
 */
module Otsu {

  const Bins := 256

  /** Total mass of a histogram prefix. */
  function Sum(s: seq<nat>): nat
  {
    if s == [] then 0 else Sum(s[..|s| - 1]) + s[|s| - 1]
  }

  /** First moment of a histogram prefix: the sum of level * count. */
  function Moment(s: seq<nat>): nat
  {
    if s == [] then 0 else Moment(s[..|s| - 1]) + (|s| - 1) * s[|s| - 1]
  }

  /** Background weight wB once bin t has been added: the mass at levels 0..t. */
  function Weight(h: seq<nat>, t: nat): nat
    requires t < |h|
  {
    Sum(h[..t + 1])
  }

  /** Background first moment sumB once bin t has been added. */
  function FirstMoment(h: seq<nat>, t: nat): nat
    requires t < |h|
  {
    Moment(h[..t + 1])
  }

  /** At bin t the scan breaks out: the background is non-empty and the foreground weight is 0. */
  predicate Stops(h: seq<nat>, total: int, t: nat)
    requires t < |h|
  {
    Weight(h, t) != 0 && total - Weight(h, t) == 0
  }

  /** The scan gets to bin t without having broken out at an earlier bin. */
  predicate Reached(h: seq<nat>, total: int, t: nat)
    requires t <= |h|
  {
    t == 0 || (Reached(h, total, t - 1) && !Stops(h, total, t - 1))
  }

  /** Bin t is scored: the scan reaches it and both classes are non-empty there. */
  predicate Candidate(h: seq<nat>, total: int, t: nat)
  {
    t < |h| && Reached(h, total, t) && Weight(h, t) != 0 && total - Weight(h, t) != 0
  }

  /** The between-class variance wB * wF * (mB - mF)^2 of the cut after bin t. */
  function Variance(h: seq<nat>, total: int, t: nat): real
    requires Candidate(h, total, t)
  {
    BetweenClass(Weight(h, t), total - Weight(h, t), FirstMoment(h, t), Moment(h) - FirstMoment(h, t))
  }

  /** wB * wF * (mB - mF)^2 for class weights wB, wF and first moments sumB, sumF. */
  function BetweenClass(wB: int, wF: int, sumB: int, sumF: int): real
    requires wB != 0 && wF != 0
  {
    var mB := sumB as real / wB as real;
    var mF := sumF as real / wF as real;
    wB as real * wF as real * (mB - mF) * (mB - mF)
  }

  /**
   * r is Otsu's threshold: when some candidate has a positive variance, r is the lowest
   * candidate of greatest variance; otherwise r is 0.
   */
  ghost predicate IsOtsuThreshold(h: seq<nat>, total: int, r: nat)
  {
    if exists t: nat :: Candidate(h, total, t) && Variance(h, total, t) > 0.0 then
      Candidate(h, total, r)
      && (forall t: nat :: Candidate(h, total, t) ==> Variance(h, total, t) <= Variance(h, total, r))
      && (forall t: nat :: t < r && Candidate(h, total, t) ==> Variance(h, total, t) < Variance(h, total, r))
    else
      r == 0
  }

  /**
   * After bins 0..n-1, r and best are what the scan holds: the lowest candidate below n
   * of greatest positive variance and that variance, or 0 and 0.0 when there is none.
   */
  ghost predicate LowestMaximiser(h: seq<nat>, total: int, n: nat, r: nat, best: real)
  {
    (forall t: nat :: t < n && Candidate(h, total, t) ==> Variance(h, total, t) <= best)
    && (forall t: nat :: t < r && Candidate(h, total, t) ==> Variance(h, total, t) < best)
    && ((r == 0 && best == 0.0) || (r < n && Candidate(h, total, r) && best == Variance(h, total, r) > 0.0))
  }

  /** The state (threshold, varMax) of the scan. */
  datatype Scan = Scan(threshold: nat, varMax: real)

  /** The scan over bins 0..n-1: a candidate replaces the best only with a strictly greater variance. */
  function ScanTo(h: seq<nat>, total: int, n: nat): (s: Scan)
    requires n <= |h|
    ensures s.varMax >= 0.0
    ensures n == 0 || s.threshold < n
  {
    if n == 0 then Scan(0, 0.0)
    else
      var s := ScanTo(h, total, n - 1);
      if Candidate(h, total, n - 1) && Variance(h, total, n - 1) > s.varMax
      then Scan(n - 1, Variance(h, total, n - 1))
      else s
  }

  /** otsuThresholdFromGrayHistogram, as a function of the histogram and the pixel total. */
  function ThresholdOf(h: seq<nat>, total: int): (r: nat)
    requires |h| == Bins
    ensures r < Bins
    ensures IsOtsuThreshold(h, total, r)
  {
    var s := ScanTo(h, total, Bins);
    ScanFindsLowestMaximiser(h, total, Bins);
    assert forall t: nat :: Candidate(h, total, t) ==> t < Bins;
    s.threshold
  }

  /** The first loop of otsuThresholdFromGrayHistogram: the sum of t * hist[t] over all bins. */
  method MomentSum(hist: seq<nat>) returns (sum: int)
    requires |hist| == Bins
    ensures sum == Moment(hist)
  {
    sum := 0;
    for t := 0 to Bins
      invariant sum == Moment(hist[..t])
    {
      assert hist[..t + 1][..t] == hist[..t];
      sum := sum + t * hist[t];
    }
    assert hist[..Bins] == hist;
  }

  /** otsuThresholdFromGrayHistogram: one pass over the bins with running sums, skipping empty backgrounds and stopping at an empty foreground. */
  method OtsuThreshold(hist: seq<nat>, total: int) returns (threshold: nat)
    requires |hist| == Bins
    ensures threshold == ThresholdOf(hist, total)
    ensures threshold < Bins && IsOtsuThreshold(hist, total, threshold)
  {
    var sum := MomentSum(hist);
    var sumB, wB, wF, varMax := 0, 0, 0, 0.0;
    threshold := 0;
    for t := 0 to Bins
      invariant Reached(hist, total, t)
      invariant wB == Sum(hist[..t]) && sumB == Moment(hist[..t])
      invariant Scan(threshold, varMax) == ScanTo(hist, total, t)
    {
      PrefixStep(hist, t);
      wB := wB + hist[t];
      assert wB == Weight(hist, t);
      if wB == 0 {
        continue;
      }
      wF := total - wB;
      if wF == 0 {
        ScanAfterStop(hist, total, t, Bins);
        break;
      }
      sumB := sumB + t * hist[t];
      assert Candidate(hist, total, t);
      assert sumB == FirstMoment(hist, t) && sum == Moment(hist);
      var varBetween := BetweenClass(wB, wF, sumB, sum - sumB);
      assert varBetween == Variance(hist, total, t);
      if varBetween > varMax {
        varMax := varBetween;
        threshold := t;
      }
    }
  }

  // ---------------------------------------------------------------------------
  // Properties

  /** The scan over bins 0..n-1 holds the lowest maximiser below n and its variance. */
  lemma {:induction false} ScanFindsLowestMaximiser(h: seq<nat>, total: int, n: nat)
    requires n <= |h|
    ensures var s := ScanTo(h, total, n); LowestMaximiser(h, total, n, s.threshold, s.varMax)
  {
    if n > 0 {
      ScanFindsLowestMaximiser(h, total, n - 1);
      var s := ScanTo(h, total, n - 1);
      var t := n - 1;
      if Candidate(h, total, t) && Variance(h, total, t) > s.varMax {
        assert s.varMax >= 0.0;
      }
    }
  }

  /** Once the scan breaks out at bin t, no later bin is reached. */
  lemma {:induction false} NotReachedAfterStop(h: seq<nat>, total: int, t: nat, u: nat)
    requires t < u <= |h| && Stops(h, total, t)
    ensures !Reached(h, total, u)
    decreases u
  {
    if u - 1 > t {
      NotReachedAfterStop(h, total, t, u - 1);
    }
  }

  /** Bins after a break change nothing: the scan's result is the one it held at the break. */
  lemma {:induction false} ScanAfterStop(h: seq<nat>, total: int, t: nat, n: nat)
    requires t < n <= |h| && Stops(h, total, t)
    ensures ScanTo(h, total, n) == ScanTo(h, total, t)
    decreases n
  {
    if n - 1 > t {
      NotReachedAfterStop(h, total, t, n - 1);
      ScanAfterStop(h, total, t, n - 1);
    }
    assert !Candidate(h, total, n - 1);
  }

  /** The threshold is determined by the histogram and the total. */
  lemma Deterministic(h: seq<nat>, total: int, r1: nat, r2: nat)
    requires IsOtsuThreshold(h, total, r1) && IsOtsuThreshold(h, total, r2)
    ensures r1 == r2
  {
  }

  /** When no bin splits the pixels into two non-empty classes the threshold is 0. */
  lemma NoSplitMeansZero(h: seq<nat>, total: int, r: nat)
    requires forall t: nat :: 0 <= t < |h| ==> Weight(h, t) == 0 || total == Weight(h, t)
    requires IsOtsuThreshold(h, total, r)
    ensures r == 0
  {
  }

  /** Adding bin t to the prefix adds h[t] to the mass and t * h[t] to the moment. */
  lemma PrefixStep(h: seq<nat>, t: nat)
    requires t < |h|
    ensures Sum(h[..t + 1]) == Sum(h[..t]) + h[t]
    ensures Moment(h[..t + 1]) == Moment(h[..t]) + t * h[t]
  {
    assert h[..t + 1][..t] == h[..t];
  }

  /** Prefix sums of a histogram whose mass lies in bins a and b only. */
  lemma {:induction false} SparsePrefix(h: seq<nat>, a: nat, b: nat, t: nat)
    requires a < b < |h| && t < |h|
    requires forall i :: 0 <= i < |h| && i != a && i != b ==> h[i] == 0
    ensures Weight(h, t) == if t < a then 0 else if t < b then h[a] else h[a] + h[b]
    ensures FirstMoment(h, t) == if t < a then 0 else if t < b then a * h[a] else a * h[a] + b * h[b]
  {
    PrefixStep(h, t);
    if t > 0 {
      SparsePrefix(h, a, b, t - 1);
      assert h[..t] == h[..(t - 1) + 1];
    } else {
      assert h[..0] == [];
    }
  }

  /** The scan reaches every bin up to the first one where it breaks. */
  lemma {:induction false} ReachedBefore(h: seq<nat>, total: int, u: nat)
    requires u <= |h|
    requires forall t: nat :: 0 <= t < u ==> !Stops(h, total, t)
    ensures Reached(h, total, u)
  {
    if u > 0 {
      ReachedBefore(h, total, u - 1);
    }
  }

  /** The mean of a class of weight w all at level a is a. */
  lemma ClassMean(a: nat, w: nat)
    requires w > 0
    ensures (a * w) as real / w as real == a as real
  {
    assert (a * w) as real == a as real * w as real;
  }

  /** Two non-empty classes at distinct levels have a positive between-class variance. */
  lemma TwoLevelVariance(wB: nat, wF: nat, a: nat, b: nat)
    requires wB > 0 && wF > 0 && a != b
    ensures BetweenClass(wB, wF, a * wB, b * wF) > 0.0
  {
    ClassMean(a, wB);
    ClassMean(b, wF);
    var d := a as real - b as real;
    assert d * d > 0.0;
    var w := wB as real * wF as real;
    assert w > 0.0;
    assert BetweenClass(wB, wF, a * wB, b * wF) == w * (d * d);
  }

  /**
   * A histogram with mass in exactly two bins a < b (and total the pixel count) has
   * threshold a: every cut a..b-1 scores the same, and the strict comparison keeps the first.
   */
  lemma TwoBinThreshold(h: seq<nat>, total: int, a: nat, b: nat, r: nat)
    requires |h| == Bins && a < b < Bins
    requires h[a] > 0 && h[b] > 0
    requires forall i :: 0 <= i < |h| && i != a && i != b ==> h[i] == 0
    requires total == h[a] + h[b]
    requires IsOtsuThreshold(h, total, r)
    ensures r == a
  {
    TwoBinCandidates(h, total, a, b);
    assert Candidate(h, total, r);
  }

  /** For a two-bin histogram the candidates are the cuts a..b-1, all of the same positive variance. */
  lemma TwoBinCandidates(h: seq<nat>, total: int, a: nat, b: nat)
    requires |h| == Bins && a < b < Bins
    requires h[a] > 0 && h[b] > 0
    requires forall i :: 0 <= i < |h| && i != a && i != b ==> h[i] == 0
    requires total == h[a] + h[b]
    ensures Candidate(h, total, a) && Variance(h, total, a) > 0.0
    ensures forall t: nat :: Candidate(h, total, t) ==> a <= t < b && Variance(h, total, t) == Variance(h, total, a)
  {
    forall t | 0 <= t < |h|
      ensures Weight(h, t) == (if t < a then 0 else if t < b then h[a] else h[a] + h[b])
      ensures FirstMoment(h, t) == (if t < a then 0 else if t < b then a * h[a] else a * h[a] + b * h[b])
    {
      SparsePrefix(h, a, b, t);
    }
    forall t | 0 <= t < b
      ensures Reached(h, total, t)
    {
      ReachedBefore(h, total, t);
    }
    assert Candidate(h, total, a);
    assert h[..Bins] == h;
    assert Moment(h) == FirstMoment(h, Bins - 1);
    assert Moment(h) - FirstMoment(h, a) == b * h[b];
    TwoLevelVariance(h[a], h[b], a, b);
    forall t: nat | Candidate(h, total, t)
      ensures a <= t < b && Variance(h, total, t) == Variance(h, total, a)
    {
      if t > b {
        NotReachedAfterStop(h, total, b, t);
      }
    }
  }

  /** A histogram with all its mass in one bin (a uniform tile) has threshold 0. */
  lemma UniformThreshold(h: seq<nat>, total: int, a: nat, r: nat)
    requires |h| == Bins && a < Bins
    requires forall i :: 0 <= i < |h| && i != a ==> h[i] == 0
    requires total == h[a]
    requires IsOtsuThreshold(h, total, r)
    ensures r == 0
  {
    var lo, hi := if a < Bins - 1 then a else 0, Bins - 1;
    forall t | 0 <= t < |h|
      ensures Weight(h, t) == 0 || total == Weight(h, t)
    {
      SparsePrefix(h, lo, hi, t);
    }
    NoSplitMeansZero(h, total, r);
  }
}
