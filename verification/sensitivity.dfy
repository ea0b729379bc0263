/** `TheoreticalSensitivity.hetSNPSensitivity`: the probability of detecting
    a heterozygous SNP, as the depth-weighted double sum over total depth n
    and alt-read count m of P(depth = n) · C(n,m)/2^n · P(sum of m sampled
    qualities is not below threshold n).

    `Math.log10(2)` is a positive real parameter; the random source is the
    explicit stream of `RouletteWheel`. */
module TheoreticalSensitivity {
  import opened Wrappers
  import RW = RouletteWheel
  import TP = ThresholdProportions
  import BT = BinomialTable

  /** The quality-sum threshold for total depth n: `10*(n*log10(2) + T)`. */
  function Threshold(n: nat, log10Two: real, logOdds: real): real {
    10.0 * (n as real * log10Two + logOdds)
  }

  function Thresholds(count: nat, log10Two: real, logOdds: real): (t: seq<real>)
    ensures |t| == count
    ensures forall n :: 0 <= n < count ==> t[n] == Threshold(n, log10Two, logOdds)
  {
    seq(count, n requires 0 <= n < count => Threshold(n, log10Two, logOdds))
  }

  /** The thresholds strictly increase with depth, so they meet the merge's
      ascending-order requirement. */
  lemma ThresholdsIncrease(count: nat, log10Two: real, logOdds: real)
    requires log10Two > 0.0
    ensures var t := Thresholds(count, log10Two, logOdds);
      forall i, j :: 0 <= i < j < count ==> t[i] < t[j]
    ensures TP.Ascending(Thresholds(count, log10Two, logOdds))
  {
    var t := Thresholds(count, log10Two, logOdds);
    forall i, j | 0 <= i < j < count ensures t[i] < t[j] {
      assert (i as real) * log10Two < (j as real) * log10Two;
    }
  }

  /** The exceedance table as a direct count: cell (m, n) is the fraction
      of row m's samples not below threshold n. */
  function ExceedanceTable(sums: seq<seq<int>>, thresholds: seq<real>): (table: seq<seq<real>>)
    ensures |table| == |sums|
    ensures forall m :: 0 <= m < |sums| ==> |table[m]| == |thresholds|
  {
    seq(|sums|, m requires 0 <= m < |sums| =>
      seq(|thresholds|, n requires 0 <= n < |thresholds| =>
        TP.Exceeds(sums[m], thresholds[n])))
  }

  /** Shape the double sum reads: `depth`, `binom` and `exceed` cover the
      cells (n, m) with m <= n < |depth|. */
  ghost predicate Covers(depth: seq<real>, binom: seq<seq<real>>, exceed: seq<seq<real>>) {
    && |binom| == |depth| && |exceed| == |depth|
    && (forall n :: 0 <= n < |depth| ==> |binom[n]| >= n + 1)
    && (forall m :: 0 <= m < |depth| ==> |exceed[m]| == |depth|)
  }

  /** `depth[n] * binom[n][m] * exceed[m][n]` summed over m < k. */
  function RowTerms(depth: seq<real>, binom: seq<seq<real>>, exceed: seq<seq<real>>, n: nat, k: nat): real
    requires Covers(depth, binom, exceed) && n < |depth| && k <= n + 1
  {
    if k == 0 then 0.0
    else RowTerms(depth, binom, exceed, n, k - 1) + depth[n] * binom[n][k - 1] * exceed[k - 1][n]
  }

  /** The source's accumulation over n < k, each n over m <= n. */
  function DoubleSum(depth: seq<real>, binom: seq<seq<real>>, exceed: seq<seq<real>>, k: nat): real
    requires Covers(depth, binom, exceed) && k <= |depth|
  {
    if k == 0 then 0.0
    else DoubleSum(depth, binom, exceed, k - 1) + RowTerms(depth, binom, exceed, k - 1, k)
  }

  ghost predicate IsProbabilityTable(exceed: seq<seq<real>>) {
    forall m, n :: 0 <= m < |exceed| && 0 <= n < |exceed[m]| ==> 0.0 <= exceed[m][n] <= 1.0
  }

  lemma TermStep(d: real, b: real, e: real, terms: real, sum: real)
    requires d >= 0.0 && b >= 0.0 && 0.0 <= e <= 1.0
    requires 0.0 <= terms <= d * sum
    ensures 0.0 <= terms + d * b * e <= d * (sum + b)
  {
    assert 0.0 <= d * b;
    assert d * b * e <= d * b * 1.0;
  }

  lemma {:induction false} RowTermsBounds(depth: seq<real>, binom: seq<seq<real>>, exceed: seq<seq<real>>, n: nat, k: nat)
    requires Covers(depth, binom, exceed) && n < |depth| && k <= n + 1
    requires depth[n] >= 0.0 && IsProbabilityTable(exceed)
    requires forall m :: 0 <= m <= n ==> binom[n][m] >= 0.0
    ensures 0.0 <= RowTerms(depth, binom, exceed, n, k) <= depth[n] * BT.RealSum(binom[n][..k])
    decreases k
  {
    if k > 0 {
      RowTermsBounds(depth, binom, exceed, n, k - 1);
      assert binom[n][..k][..k - 1] == binom[n][..k - 1];
      assert BT.RealSum(binom[n][..k]) == BT.RealSum(binom[n][..k - 1]) + binom[n][k - 1];
      TermStep(depth[n], binom[n][k - 1], exceed[k - 1][n],
               RowTerms(depth, binom, exceed, n, k - 1), BT.RealSum(binom[n][..k - 1]));
    }
  }

  /** The rows of a binomial table as the double sum reads them: the first
      n+1 entries of row n are non-negative and add up to 1. */
  ghost predicate DistributionRows(binom: seq<seq<real>>) {
    forall n :: 0 <= n < |binom| ==>
      && |binom[n]| >= n + 1
      && BT.RealSum(binom[n][..n + 1]) == 1.0
      && (forall m :: 0 <= m <= n ==> binom[n][m] >= 0.0)
  }

  lemma HetAltRowsAreDistributions(count: nat)
    ensures DistributionRows(BT.HetAltDepthDistribution(count))
  {
    var binom := BT.HetAltDepthDistribution(count);
    forall n | 0 <= n < count
      ensures |binom[n]| >= n + 1
      ensures BT.RealSum(binom[n][..n + 1]) == 1.0
      ensures forall m :: 0 <= m <= n ==> binom[n][m] >= 0.0
    {
      BT.RowsSumToOne(count, n);
      forall m | 0 <= m <= n ensures binom[n][m] >= 0.0 {
        BT.EntriesAreProbabilities(count, n, m);
      }
    }
  }

  lemma {:induction false} DoubleSumBounds(depth: seq<real>, binom: seq<seq<real>>, exceed: seq<seq<real>>, k: nat)
    requires Covers(depth, binom, exceed) && k <= |depth|
    requires RW.NonNegative(depth) && IsProbabilityTable(exceed) && DistributionRows(binom)
    ensures 0.0 <= DoubleSum(depth, binom, exceed, k) <= BT.RealSum(depth[..k])
    decreases k
  {
    if k > 0 {
      var n := k - 1;
      DoubleSumBounds(depth, binom, exceed, n);
      RowTermsBounds(depth, binom, exceed, n, n + 1);
      assert depth[..k][..n] == depth[..n];
      assert BT.RealSum(depth[..k]) == BT.RealSum(depth[..n]) + depth[n];
    }
  }

  /** If the depth distribution is a (sub-)probability distribution and the
      exceedance table holds probabilities, the sensitivity is in [0,1]. */
  lemma SensitivityIsProbability(depth: seq<real>, exceed: seq<seq<real>>)
    requires Covers(depth, BT.HetAltDepthDistribution(|depth|), exceed)
    requires RW.NonNegative(depth) && BT.RealSum(depth) <= 1.0 && IsProbabilityTable(exceed)
    ensures 0.0 <= DoubleSum(depth, BT.HetAltDepthDistribution(|depth|), exceed, |depth|) <= 1.0
  {
    HetAltRowsAreDistributions(|depth|);
    DoubleSumBounds(depth, BT.HetAltDepthDistribution(|depth|), exceed, |depth|);
    assert depth[..|depth|] == depth;
  }

  lemma ExceedanceIsProbability(sums: seq<seq<int>>, thresholds: seq<real>)
    ensures IsProbabilityTable(ExceedanceTable(sums, thresholds))
  {
    var table := ExceedanceTable(sums, thresholds);
    forall m, n | 0 <= m < |table| && 0 <= n < |table[m]|
      ensures 0.0 <= table[m][n] <= 1.0
    {
      TP.ProportionBounds(sums[m], thresholds[n]);
    }
  }

  lemma {:induction false} RowTermsWhenCertain(depth: seq<real>, binom: seq<seq<real>>, exceed: seq<seq<real>>, n: nat, k: nat)
    requires Covers(depth, binom, exceed) && n < |depth| && k <= n + 1
    requires forall m :: 0 <= m <= n ==> exceed[m][n] == 1.0
    ensures RowTerms(depth, binom, exceed, n, k) == depth[n] * BT.RealSum(binom[n][..k])
    decreases k
  {
    if k > 0 {
      RowTermsWhenCertain(depth, binom, exceed, n, k - 1);
      assert binom[n][..k][..k - 1] == binom[n][..k - 1];
    }
  }

  lemma {:induction false} RowTermsWhenImpossible(depth: seq<real>, binom: seq<seq<real>>, exceed: seq<seq<real>>, n: nat, k: nat)
    requires Covers(depth, binom, exceed) && n < |depth| && k <= n + 1
    requires forall m :: 0 <= m <= n ==> exceed[m][n] == 0.0
    ensures RowTerms(depth, binom, exceed, n, k) == 0.0
    decreases k
  {
    if k > 0 {
      RowTermsWhenImpossible(depth, binom, exceed, n, k - 1);
    }
  }

  /** When every needed cell of the exceedance table is 1 the sensitivity is
      the total depth mass; when every one is 0 it is 0. */
  lemma {:induction false} DoubleSumExtremes(depth: seq<real>, binom: seq<seq<real>>, exceed: seq<seq<real>>, k: nat)
    requires Covers(depth, binom, exceed) && k <= |depth| && DistributionRows(binom)
    ensures (forall m, n :: 0 <= m <= n < |depth| ==> exceed[m][n] == 1.0) ==>
      DoubleSum(depth, binom, exceed, k) == BT.RealSum(depth[..k])
    ensures (forall m, n :: 0 <= m <= n < |depth| ==> exceed[m][n] == 0.0) ==>
      DoubleSum(depth, binom, exceed, k) == 0.0
    decreases k
  {
    if k > 0 {
      var n := k - 1;
      DoubleSumExtremes(depth, binom, exceed, n);
      assert depth[..k][..n] == depth[..n];
      if forall m, n :: 0 <= m <= n < |depth| ==> exceed[m][n] == 1.0 {
        RowTermsWhenCertain(depth, binom, exceed, n, n + 1);
      }
      if forall m, n :: 0 <= m <= n < |depth| ==> exceed[m][n] == 0.0 {
        RowTermsWhenImpossible(depth, binom, exceed, n, n + 1);
      }
    }
  }

  lemma LowThreshold(n: nat, count: nat, log10Two: real, logOdds: real)
    requires n < count && log10Two > 0.0 && logOdds <= -(count as real * log10Two)
    ensures Threshold(n, log10Two, logOdds) <= 0.0
  {
    assert (n as real) * log10Two <= (count as real) * log10Two;
  }

  lemma HighThreshold(m: nat, n: nat, count: nat, maxQuality: nat, log10Two: real, logOdds: real)
    requires m <= n < count && log10Two > 0.0 && 10.0 * logOdds > (count * maxQuality) as real
    ensures ((m * maxQuality) as real) < Threshold(n, log10Two, logOdds)
  {
    assert m * maxQuality <= count * maxQuality;
    assert (n as real) * log10Two >= 0.0;
  }

  /** A log-odds threshold low enough that every quality-sum threshold is
      at most 0: every sampled sum passes, and the sensitivity is the total
      depth mass (1 for a probability distribution). */
  lemma {:induction false} LowThresholdDetectsEverything(depth: seq<real>, sums: seq<seq<nat>>, log10Two: real, logOdds: real)
    requires log10Two > 0.0 && logOdds <= -(|depth| as real * log10Two)
    requires |sums| == |depth| && forall m :: 0 <= m < |sums| ==> |sums[m]| > 0
    ensures var exceed := ExceedanceTable(sums, Thresholds(|depth|, log10Two, logOdds));
      && Covers(depth, BT.HetAltDepthDistribution(|depth|), exceed)
      && DoubleSum(depth, BT.HetAltDepthDistribution(|depth|), exceed, |depth|) == BT.RealSum(depth)
  {
    var thresholds := Thresholds(|depth|, log10Two, logOdds);
    var exceed := ExceedanceTable(sums, thresholds);
    forall m, n | 0 <= m <= n < |depth| ensures exceed[m][n] == 1.0 {
      LowThreshold(n, |depth|, log10Two, logOdds);
      TP.ProportionBounds(sums[m], thresholds[n]);
    }
    HetAltRowsAreDistributions(|depth|);
    DoubleSumExtremes(depth, BT.HetAltDepthDistribution(|depth|), exceed, |depth|);
    assert depth[..|depth|] == depth;
  }

  /** A log-odds threshold so high that threshold n exceeds n times the
      largest quality: no sum of m <= n sampled qualities reaches it, and the
      sensitivity is 0. */
  lemma {:induction false} HighThresholdDetectsNothing(depth: seq<real>, sums: seq<seq<nat>>, maxQuality: nat,
                                    log10Two: real, logOdds: real)
    requires log10Two > 0.0 && 10.0 * logOdds > (|depth| * maxQuality) as real
    requires |sums| == |depth|
    requires forall m, t :: 0 <= m < |sums| && 0 <= t < |sums[m]| ==> sums[m][t] <= m * maxQuality
    ensures var exceed := ExceedanceTable(sums, Thresholds(|depth|, log10Two, logOdds));
      && Covers(depth, BT.HetAltDepthDistribution(|depth|), exceed)
      && DoubleSum(depth, BT.HetAltDepthDistribution(|depth|), exceed, |depth|) == 0.0
  {
    var thresholds := Thresholds(|depth|, log10Two, logOdds);
    var exceed := ExceedanceTable(sums, thresholds);
    forall m, n | 0 <= m <= n < |depth| ensures exceed[m][n] == 0.0 {
      HighThreshold(m, n, |depth|, maxQuality, log10Two, logOdds);
      forall t | 0 <= t < |sums[m]| ensures (sums[m][t] as real) < thresholds[n] {
        assert (sums[m][t] as real) <= (m * maxQuality) as real;
      }
      TP.ProportionBounds(sums[m], thresholds[n]);
    }
    HetAltRowsAreDistributions(|depth|);
    DoubleSumExtremes(depth, BT.HetAltDepthDistribution(|depth|), exceed, |depth|);
  }

  /** The source's nested loop: `result += depth[n]*binom[n][m]*exceed[m][n]`
      for n < N and m <= n, in that order. */
  method Accumulate(depth: seq<real>, binom: seq<seq<real>>, exceed: seq<seq<real>>) returns (result: real)
    requires Covers(depth, binom, exceed)
    ensures result == DoubleSum(depth, binom, exceed, |depth|)
  {
    result := 0.0;
    for n := 0 to |depth|
      invariant result == DoubleSum(depth, binom, exceed, n)
    {
      for m := 0 to n + 1
        invariant result == DoubleSum(depth, binom, exceed, n) + RowTerms(depth, binom, exceed, n, m)
      {
        result := result + depth[n] * binom[n][m] * exceed[m][n];
      }
    }
  }

  datatype SensitivityError =
    | EmptyQualityDistribution  // `Collections.max` of an empty list throws
    | RandomStreamExhausted     // the draws need more random values than supplied

  /** The merged proportions are the exceedance table. */
  lemma ProportionsAreExceedance(sums: seq<seq<int>>, thresholds: seq<real>, proportions: seq<seq<real>>)
    requires |proportions| == |sums|
    requires forall m :: 0 <= m < |sums| ==> |proportions[m]| == |thresholds|
    requires forall m, n :: 0 <= m < |sums| && 0 <= n < |thresholds| ==>
      proportions[m][n] == TP.Exceeds(sums[m], thresholds[n])
    ensures proportions == ExceedanceTable(sums, thresholds)
  {
    var exceed := ExceedanceTable(sums, thresholds);
    forall m | 0 <= m < |exceed| ensures proportions[m] == exceed[m] {
      assert |proportions[m]| == |exceed[m]|;
    }
  }

  /** The sensitivity as a formula: the double sum over the binomial table
      and the exceedance table of the sampled quality sums, counted directly
      rather than merged. The wheel needs a non-empty quality distribution
      and the sampling needs enough random values. */
  function Formula(depth: seq<real>, quality: seq<real>, sampleSize: int,
                   logOdds: real, log10Two: real, stream: seq<real>): Result<real, SensitivityError>
    requires log10Two > 0.0 && RW.IsUnitStream(stream)
  {
    if |quality| == 0 then Failure(EmptyQualityDistribution)
    else
      var trials := if sampleSize < 0 then 0 else sampleSize;
      var sampled := RW.SampleCumulativeSums(RW.MakeWheel(quality).value, |depth|, trials, stream);
      if sampled.None? then Failure(RandomStreamExhausted)
      else
        var exceed := ExceedanceTable(sampled.value.0, Thresholds(|depth|, log10Two, logOdds));
        var binom := BT.HetAltDepthDistribution(|depth|);
        assert Covers(depth, binom, exceed);
        Success(DoubleSum(depth, binom, exceed, |depth|))
  }

  /** `hetSNPSensitivity(depthDistribution, qualityDistribution, sampleSize,
      logOddsThreshold)`; a negative sample size runs no trials, as in the
      source's loop. */
  method HetSnpSensitivity(depth: seq<real>, quality: seq<real>, sampleSize: int,
                           logOdds: real, log10Two: real, stream: seq<real>)
    returns (r: Result<real, SensitivityError>)
    requires log10Two > 0.0 && RW.IsUnitStream(stream)
    ensures |quality| == 0 <==> r == Failure(EmptyQualityDistribution)
    ensures r == Formula(depth, quality, sampleSize, logOdds, log10Two, stream)
    ensures r.Success? && RW.NonNegative(depth) && BT.RealSum(depth) <= 1.0 ==> 0.0 <= r.value <= 1.0
  {
    var N := |depth|;
    var wheel := RW.MakeWheel(quality);
    if wheel.Failure? {
      return Failure(EmptyQualityDistribution);
    }
    var trials := if sampleSize < 0 then 0 else sampleSize;
    var sampled := RW.SampleCumulativeSums(wheel.value, N, trials, stream);
    if sampled.None? {
      return Failure(RandomStreamExhausted);
    }
    var qualitySums := sampled.value.0;
    var thresholds := Thresholds(N, log10Two, logOdds);
    ThresholdsIncrease(N, log10Two, logOdds);
    var proportions := TP.ProportionsAboveThresholds(qualitySums, thresholds);
    var exceed := ExceedanceTable(qualitySums, thresholds);
    ProportionsAreExceedance(qualitySums, thresholds, proportions);
    var binom := BT.HetAltDepthDistribution(N);
    assert Covers(depth, binom, exceed);
    var result := Accumulate(depth, binom, proportions);
    ExceedanceIsProbability(qualitySums, thresholds);
    if RW.NonNegative(depth) && BT.RealSum(depth) <= 1.0 {
      SensitivityIsProbability(depth, exceed);
    }
    return Success(result);
  }
}
