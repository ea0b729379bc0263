/** The stochastic-acceptance sampler of `TheoreticalSensitivity.RouletteWheel`
    and the cumulative-sum sampler built on it.

    Randomness is an explicit stream of reals in [0,1) supplied by the caller;
    every draw attempt consumes two of them (one picks the candidate index,
    one decides acceptance). A draw that runs out of stream yields `None`. */
module RouletteWheel {
  import opened Wrappers

  /** A stream of values a uniform generator on [0,1) may produce. */
  ghost predicate IsUnitStream(stream: seq<real>) {
    forall i :: 0 <= i < |stream| ==> 0.0 <= stream[i] < 1.0
  }

  ghost predicate NonNegative(weights: seq<real>) {
    forall i :: 0 <= i < |weights| ==> weights[i] >= 0.0
  }

  /** The largest weight (what `Collections.max` returns). */
  function MaxWeight(weights: seq<real>): (w: real)
    requires |weights| > 0
    ensures w in weights
    ensures forall i :: 0 <= i < |weights| ==> weights[i] <= w
  {
    if |weights| == 1 then weights[0]
    else
      var rest := MaxWeight(weights[1..]);
      assert forall i :: 1 <= i < |weights| ==> weights[i] == weights[1..][i - 1];
      if weights[0] >= rest then weights[0] else rest
  }

  /** `w / wMax`. When the maximum is 0 the source computes NaN or -Infinity,
      which no uniform value falls below; 0.0 has the same effect on draws. */
  function Ratio(w: real, wMax: real): real {
    if wMax == 0.0 then 0.0 else w / wMax
  }

  datatype Wheel = Wheel(acceptance: seq<real>)

  datatype WheelError = EmptyWeights

  /** The constructor: one acceptance ratio per weight; an empty weight
      list fails because the maximum of nothing does not exist. */
  function MakeWheel(weights: seq<real>): (r: Result<Wheel, WheelError>)
    ensures r.Failure? <==> |weights| == 0
    ensures r.Success? ==> |r.value.acceptance| == |weights|
    ensures r.Success? ==> forall i :: 0 <= i < |weights| ==>
      r.value.acceptance[i] == Ratio(weights[i], MaxWeight(weights))
  {
    if |weights| == 0 then Failure(EmptyWeights)
    else
      var wMax := MaxWeight(weights);
      Success(Wheel(seq(|weights|, i requires 0 <= i < |weights| => Ratio(weights[i], wMax))))
  }

  lemma RatioBounds(w: real, wMax: real)
    requires 0.0 <= w <= wMax
    ensures 0.0 <= Ratio(w, wMax) <= 1.0
    ensures Ratio(w, wMax) > 0.0 <==> w > 0.0
    ensures w == wMax && w > 0.0 ==> Ratio(w, wMax) == 1.0
  {
    if wMax != 0.0 {
      assert w / wMax <= wMax / wMax;
    }
  }

  /** With non-negative weights every ratio lies in [0,1], a ratio is
      positive exactly when its weight is, and every maximal weight has
      ratio 1 (unless all weights are 0). */
  lemma AcceptanceRatios(weights: seq<real>)
    requires |weights| > 0 && NonNegative(weights)
    ensures MakeWheel(weights).Success?
    ensures var acc := MakeWheel(weights).value.acceptance;
      forall i :: 0 <= i < |weights| ==>
        && 0.0 <= acc[i] <= 1.0
        && (acc[i] > 0.0 <==> weights[i] > 0.0)
        && (weights[i] == MaxWeight(weights) && weights[i] > 0.0 ==> acc[i] == 1.0)
  {
    var wMax := MaxWeight(weights);
    forall i | 0 <= i < |weights| {
      RatioBounds(weights[i], wMax);
    }
  }

  ghost predicate Valid(w: Wheel) {
    |w.acceptance| > 0
  }

  /** `(int)(N * u)` for u in [0,1): an index in [0,N). */
  function PickIndex(n: nat, u: real): (i: nat)
    requires n > 0 && 0.0 <= u < 1.0
    ensures i < n
  {
    var x := n as real * u;
    assert x < n as real by {
      assert n as real * u < n as real * 1.0;
    }
    x.Floor
  }

  /** One call of `draw`: repeat (pick a candidate, accept it when the next
      value is below its ratio) until a candidate is accepted. */
  function Draw(w: Wheel, stream: seq<real>): (r: Option<(nat, seq<real>)>)
    requires Valid(w) && IsUnitStream(stream)
    ensures r.Some? ==> r.value.0 < |w.acceptance|
    ensures r.Some? ==> w.acceptance[r.value.0] > 0.0
    ensures r.Some? ==> |r.value.1| + 2 <= |stream| && r.value.1 == stream[|stream| - |r.value.1|..]
    decreases |stream|
  {
    if |stream| < 2 then None
    else
      var n := PickIndex(|w.acceptance|, stream[0]);
      if stream[1] < w.acceptance[n] then Some((n, stream[2..]))
      else Draw(w, stream[2..])
  }

  /** The candidate attempt j picks: the index chosen by value 2j. */
  function CandidateOf(w: Wheel, stream: seq<real>, j: nat): (i: nat)
    requires Valid(w) && IsUnitStream(stream) && 2 * j + 1 < |stream|
    ensures i < |w.acceptance|
  {
    PickIndex(|w.acceptance|, stream[2 * j])
  }

  /** Attempt j exists and accepts its candidate: value 2j+1 falls below
      the candidate's ratio. */
  predicate Accepts(w: Wheel, stream: seq<real>, j: nat)
    requires Valid(w) && IsUnitStream(stream)
  {
    2 * j + 1 < |stream| && stream[2 * j + 1] < w.acceptance[CandidateOf(w, stream, j)]
  }

  /** Dropping the first attempt shifts every later attempt down by one. */
  lemma ShiftAttempt(w: Wheel, stream: seq<real>, j: nat)
    requires Valid(w) && IsUnitStream(stream) && |stream| >= 2
    ensures IsUnitStream(stream[2..])
    ensures Accepts(w, stream[2..], j) <==> Accepts(w, stream, j + 1)
    ensures 2 * j + 1 < |stream[2..]| ==> CandidateOf(w, stream[2..], j) == CandidateOf(w, stream, j + 1)
  {
    if 2 * j + 1 < |stream[2..]| {
      assert stream[2..][2 * j] == stream[2 * (j + 1)];
      assert stream[2..][2 * j + 1] == stream[2 * (j + 1) + 1];
    }
  }

  /** A draw runs out of stream exactly when no attempt in it accepts. */
  lemma {:induction false} DrawCompletes(w: Wheel, stream: seq<real>)
    requires Valid(w) && IsUnitStream(stream)
    ensures Draw(w, stream).None? <==> forall j: nat :: !Accepts(w, stream, j)
    decreases |stream|
  {
    if |stream| >= 2 && !Accepts(w, stream, 0) {
      DrawCompletes(w, stream[2..]);
      forall j: nat ensures Accepts(w, stream[2..], j) <==> Accepts(w, stream, j + 1) {
        ShiftAttempt(w, stream, j);
      }
      if exists j: nat :: Accepts(w, stream, j) {
        var j: nat :| Accepts(w, stream, j);
        assert j >= 1 && Accepts(w, stream[2..], j - 1);
      }
    }
  }

  /** A draw returns the candidate of the first accepting attempt and the
      stream after it. */
  lemma {:induction false} DrawIsFirstAccepted(w: Wheel, stream: seq<real>, j: nat)
    requires Valid(w) && IsUnitStream(stream)
    requires Accepts(w, stream, j) && forall i: nat :: i < j ==> !Accepts(w, stream, i)
    ensures Draw(w, stream) == Some((CandidateOf(w, stream, j), stream[2 * j + 2..]))
    decreases j
  {
    if j > 0 {
      assert !Accepts(w, stream, 0);
      ShiftAttempt(w, stream, j - 1);
      forall i: nat | i < j - 1 ensures !Accepts(w, stream[2..], i) {
        ShiftAttempt(w, stream, i);
      }
      DrawIsFirstAccepted(w, stream[2..], j - 1);
      assert stream[2..][2 * (j - 1) + 2..] == stream[2 * j + 2..];
    }
  }

  /** A wheel made from non-negative weights only ever returns an index of
      positive weight; with a single positive weight it always returns that
      index. */
  lemma DrawHasPositiveWeight(weights: seq<real>, stream: seq<real>)
    requires |weights| > 0 && NonNegative(weights) && IsUnitStream(stream)
    ensures var r := Draw(MakeWheel(weights).value, stream);
      r.Some? ==> weights[r.value.0] > 0.0
  {
    AcceptanceRatios(weights);
  }

  ghost predicate OnlyPositive(weights: seq<real>, k: nat) {
    k < |weights| && weights[k] > 0.0 &&
    forall i :: 0 <= i < |weights| && i != k ==> weights[i] == 0.0
  }

  /** With a single positive weight at k, candidate k is accepted with
      certainty and every other candidate never. */
  lemma OnlyPositiveWheel(weights: seq<real>, k: nat)
    requires NonNegative(weights) && OnlyPositive(weights, k)
    ensures MakeWheel(weights).Success?
    ensures var acc := MakeWheel(weights).value.acceptance;
      acc[k] == 1.0 && forall i :: 0 <= i < |acc| && i != k ==> acc[i] == 0.0
  {
    AcceptanceRatios(weights);
    var wMax := MaxWeight(weights);
    assert wMax == weights[k] by {
      var i :| 0 <= i < |weights| && weights[i] == wMax;
      if i != k {
        assert weights[k] <= wMax;
      }
    }
  }

  /** With a single positive weight at k an attempt accepts exactly when it
      picks k. */
  lemma OnlyPositiveAccepts(weights: seq<real>, k: nat, stream: seq<real>, j: nat)
    requires NonNegative(weights) && OnlyPositive(weights, k) && IsUnitStream(stream)
    ensures var w := MakeWheel(weights).value;
      Accepts(w, stream, j) <==> 2 * j + 1 < |stream| && CandidateOf(w, stream, j) == k
  {
    OnlyPositiveWheel(weights, k);
  }

  /** With a single positive weight at k (the test's weights (0, 1, 0)),
      a draw returns k, and it runs out of stream exactly when no attempt
      picks k. */
  lemma DeterministicDraw(weights: seq<real>, k: nat, stream: seq<real>)
    requires NonNegative(weights) && OnlyPositive(weights, k) && IsUnitStream(stream)
    ensures var r := Draw(MakeWheel(weights).value, stream);
      r.Some? ==> r.value.0 == k
    ensures var w := MakeWheel(weights).value;
      Draw(w, stream).None? <==> forall j: nat :: 2 * j + 1 < |stream| ==> CandidateOf(w, stream, j) != k
  {
    DrawHasPositiveWeight(weights, stream);
    var w := MakeWheel(weights).value;
    DrawCompletes(w, stream);
    forall j: nat ensures Accepts(w, stream, j) <==> 2 * j + 1 < |stream| && CandidateOf(w, stream, j) == k {
      OnlyPositiveAccepts(weights, k, stream, j);
    }
  }

  /** With a single positive weight at k, a draw consumes the attempts up to
      and including the first one that picks k. */
  lemma DeterministicDrawConsumes(weights: seq<real>, k: nat, stream: seq<real>, j: nat)
    requires NonNegative(weights) && OnlyPositive(weights, k) && IsUnitStream(stream)
    requires 2 * j + 1 < |stream| && CandidateOf(MakeWheel(weights).value, stream, j) == k
    requires forall i: nat :: i < j ==> CandidateOf(MakeWheel(weights).value, stream, i) != k
    ensures Draw(MakeWheel(weights).value, stream) == Some((k, stream[2 * j + 2..]))
  {
    var w := MakeWheel(weights).value;
    forall i: nat ensures Accepts(w, stream, i) <==> 2 * i + 1 < |stream| && CandidateOf(w, stream, i) == k {
      OnlyPositiveAccepts(weights, k, stream, i);
    }
    DrawIsFirstAccepted(w, stream, j);
  }

  /** Every draw is an index of the wheel with positive acceptance. */
  ghost predicate PositiveDraws(w: Wheel, draws: seq<nat>) {
    forall j :: 0 <= j < |draws| ==> draws[j] < |w.acceptance| && w.acceptance[draws[j]] > 0.0
  }

  lemma PositiveDrawsCons(w: Wheel, d: nat, ds: seq<nat>)
    requires d < |w.acceptance| && w.acceptance[d] > 0.0 && PositiveDraws(w, ds)
    ensures PositiveDraws(w, [d] + ds)
  {
  }

  /** The suffix left after consuming part of a stream. */
  ghost predicate SuffixOf(rest: seq<real>, stream: seq<real>) {
    |rest| <= |stream| && rest == stream[|stream| - |rest|..]
  }

  lemma SuffixTransitive(rest': seq<real>, rest: seq<real>, stream: seq<real>)
    requires SuffixOf(rest', rest) && SuffixOf(rest, stream)
    ensures SuffixOf(rest', stream)
  {
    assert rest' == stream[|stream| - |rest'|..];
  }

  /** `count` successive draws. */
  function DrawMany(w: Wheel, count: nat, stream: seq<real>): (r: Option<(seq<nat>, seq<real>)>)
    requires Valid(w) && IsUnitStream(stream)
    ensures r.Some? ==> |r.value.0| == count && PositiveDraws(w, r.value.0)
    ensures r.Some? ==> SuffixOf(r.value.1, stream)
    decreases count
  {
    if count == 0 then Some(([], stream))
    else
      match Draw(w, stream)
      case None => None
      case Some((d, rest)) =>
        UnitSuffix(stream, rest);
        match DrawMany(w, count - 1, rest)
        case None => None
        case Some((ds, rest')) =>
          SuffixTransitive(rest', rest, stream);
          PositiveDrawsCons(w, d, ds);
          Some(([d] + ds, rest'))
  }

  lemma UnitSuffix(stream: seq<real>, rest: seq<real>)
    requires IsUnitStream(stream) && SuffixOf(rest, stream)
    ensures IsUnitStream(rest)
  {
    forall i | 0 <= i < |rest| ensures 0.0 <= rest[i] < 1.0 {
      assert rest[i] == stream[|stream| - |rest| + i];
    }
  }

  /** `sampleSize` trials of `summands` draws each, in the order the source
      performs them: all draws of trial 0, then all draws of trial 1, ... */
  function SampleTrials(w: Wheel, sampleSize: nat, summands: nat, stream: seq<real>)
    : (r: Option<(seq<seq<nat>>, seq<real>)>)
    requires Valid(w) && IsUnitStream(stream)
    ensures r.Some? ==> |r.value.0| == sampleSize
    ensures r.Some? ==> forall t :: 0 <= t < sampleSize ==>
      |r.value.0[t]| == summands && PositiveDraws(w, r.value.0[t])
    decreases sampleSize
  {
    if sampleSize == 0 then Some(([], stream))
    else
      match DrawMany(w, summands, stream)
      case None => None
      case Some((trial, rest)) =>
        UnitSuffix(stream, rest);
        match SampleTrials(w, sampleSize - 1, summands, rest)
        case None => None
        case Some((trials, rest')) =>
          TrialsCons(w, summands, trial, trials);
          Some(([trial] + trials, rest'))
  }

  lemma TrialsCons(w: Wheel, summands: nat, trial: seq<nat>, trials: seq<seq<nat>>)
    requires |trial| == summands && PositiveDraws(w, trial)
    requires forall t :: 0 <= t < |trials| ==> |trials[t]| == summands && PositiveDraws(w, trials[t])
    ensures forall t :: 0 <= t < |trials| + 1 ==>
      |([trial] + trials)[t]| == summands && PositiveDraws(w, ([trial] + trials)[t])
  {
  }

  /** Sum of a sequence of draws. */
  function Sum(s: seq<nat>): nat {
    if |s| == 0 then 0 else Sum(s[..|s| - 1]) + s[|s| - 1]
  }

  lemma {:induction false} SumCons(x: nat, s: seq<nat>)
    ensures Sum([x] + s) == x + Sum(s)
    decreases |s|
  {
    if |s| > 0 {
      assert ([x] + s)[..|s|] == [x] + s[..|s| - 1];
      SumCons(x, s[..|s| - 1]);
    }
  }

  /** The running sums one trial records: before adding draw m, the
      accumulator `acc` plus the first m draws. */
  function RunningSums(draws: seq<nat>, acc: nat): (r: seq<nat>)
    ensures |r| == |draws|
    ensures forall m :: 0 <= m < |draws| ==> r[m] == acc + Sum(draws[..m])
  {
    if |draws| == 0 then []
    else
      var tail := RunningSums(draws[1..], acc + draws[0]);
      assert forall m :: 1 <= m <= |draws| ==> draws[..m] == [draws[0]] + draws[1..][..m - 1];
      forall m | 1 <= m <= |draws| ensures Sum(draws[..m]) == draws[0] + Sum(draws[1..][..m - 1]) {
        SumCons(draws[0], draws[1..][..m - 1]);
      }
      [acc] + tail
  }

  /** Appends one trial's running sums as a new column: row m gets entry m. */
  function AppendColumn(rows: seq<seq<nat>>, column: seq<nat>): (r: seq<seq<nat>>)
    requires |rows| == |column|
    ensures |r| == |rows|
    ensures forall m :: 0 <= m < |rows| ==> r[m] == rows[m] + [column[m]]
  {
    seq(|rows|, m requires 0 <= m < |rows| => rows[m] + [column[m]])
  }

  /** The table `sampleCumulativeSums` builds from the trials' draws: row m,
      column t is the sum of the first m draws of trial t. */
  function SumsFromTrials(trials: seq<seq<nat>>, summands: nat): (rows: seq<seq<nat>>)
    requires forall t :: 0 <= t < |trials| ==> |trials[t]| == summands
    ensures |rows| == summands
    ensures forall m :: 0 <= m < summands ==> |rows[m]| == |trials|
    ensures forall m, t :: 0 <= m < summands && 0 <= t < |trials| ==>
      rows[m][t] == Sum(trials[t][..m])
  {
    if |trials| == 0 then seq(summands, _ => [])
    else
      var last := |trials| - 1;
      AppendColumn(SumsFromTrials(trials[..last], summands), RunningSums(trials[last], 0))
  }

  /** `sampleCumulativeSums(maxNumberOfSummands, sampleSize)`. */
  function SampleCumulativeSums(w: Wheel, summands: nat, sampleSize: nat, stream: seq<real>)
    : (r: Option<(seq<seq<nat>>, seq<real>)>)
    requires Valid(w) && IsUnitStream(stream)
    ensures r.Some? ==> |r.value.0| == summands
    ensures r.Some? ==> forall m :: 0 <= m < summands ==> |r.value.0[m]| == sampleSize
  {
    match SampleTrials(w, sampleSize, summands, stream)
    case None => None
    case Some((trials, rest)) => Some((SumsFromTrials(trials, summands), rest))
  }

  /** Row 0 is all zeros and row m+1 is row m plus one more draw of the
      same trial: the rows are coupled per trial, not resampled. */
  lemma CumulativeRows(trials: seq<seq<nat>>, summands: nat)
    requires forall t :: 0 <= t < |trials| ==> |trials[t]| == summands
    ensures var rows := SumsFromTrials(trials, summands);
      && (summands > 0 ==> forall t :: 0 <= t < |trials| ==> rows[0][t] == 0)
      && (forall m, t :: 0 <= m < summands - 1 && 0 <= t < |trials| ==>
            rows[m + 1][t] == rows[m][t] + trials[t][m])
  {
    var rows := SumsFromTrials(trials, summands);
    forall m, t | 0 <= m < summands - 1 && 0 <= t < |trials|
      ensures rows[m + 1][t] == rows[m][t] + trials[t][m]
    {
      assert trials[t][..m + 1][..m] == trials[t][..m];
    }
  }

  /** Every sampled sum of m draws lies between 0 and m·(N-1). */
  lemma {:induction false} SumBound(s: seq<nat>, bound: nat)
    requires forall j :: 0 <= j < |s| ==> s[j] <= bound
    ensures Sum(s) <= |s| * bound
    decreases |s|
  {
    if |s| > 0 {
      SumBound(s[..|s| - 1], bound);
    }
  }

  lemma SampledSumsBounded(w: Wheel, summands: nat, sampleSize: nat, stream: seq<real>)
    requires Valid(w) && IsUnitStream(stream)
    ensures var r := SampleCumulativeSums(w, summands, sampleSize, stream);
      r.Some? ==> forall m, t :: 0 <= m < summands && 0 <= t < sampleSize ==>
        r.value.0[m][t] <= m * (|w.acceptance| - 1)
  {
    var r := SampleCumulativeSums(w, summands, sampleSize, stream);
    if r.Some? {
      var trials := SampleTrials(w, sampleSize, summands, stream).value.0;
      forall m, t | 0 <= m < summands && 0 <= t < sampleSize
        ensures r.value.0[m][t] <= m * (|w.acceptance| - 1)
      {
        SumBound(trials[t][..m], |w.acceptance| - 1);
      }
    }
  }

  lemma {:induction false} SumConstant(s: seq<nat>, k: nat)
    requires forall j :: 0 <= j < |s| ==> s[j] == k
    ensures Sum(s) == |s| * k
    decreases |s|
  {
    if |s| > 0 {
      SumConstant(s[..|s| - 1], k);
    }
  }

  /** Every attempt of the stream picks k. */
  ghost predicate AllPick(w: Wheel, stream: seq<real>, k: nat)
    requires Valid(w) && IsUnitStream(stream)
  {
    forall j: nat :: 2 * j + 1 < |stream| ==> CandidateOf(w, stream, j) == k
  }

  lemma AllPickSuffix(w: Wheel, stream: seq<real>, k: nat, c: nat)
    requires Valid(w) && IsUnitStream(stream) && AllPick(w, stream, k) && 2 * c <= |stream|
    ensures IsUnitStream(stream[2 * c..]) && AllPick(w, stream[2 * c..], k)
  {
    var rest := stream[2 * c..];
    forall j: nat | 2 * j + 1 < |rest| ensures CandidateOf(w, rest, j) == k {
      assert rest[2 * j] == stream[2 * (j + c)];
      assert CandidateOf(w, stream, j + c) == k;
    }
  }

  lemma CertainDraw(w: Wheel, k: nat, stream: seq<real>)
    requires Valid(w) && IsUnitStream(stream) && k < |w.acceptance| && w.acceptance[k] == 1.0
    requires |stream| >= 2 && CandidateOf(w, stream, 0) == k
    ensures Draw(w, stream) == Some((k, stream[2..]))
  {
  }

  lemma DrawManyStep(w: Wheel, count: nat, stream: seq<real>, d: nat, rest: seq<real>)
    requires Valid(w) && IsUnitStream(stream) && IsUnitStream(rest) && count > 0
    requires Draw(w, stream) == Some((d, rest)) && DrawMany(w, count - 1, rest).Some?
    ensures DrawMany(w, count, stream).Some?
    ensures DrawMany(w, count, stream).value.1 == DrawMany(w, count - 1, rest).value.1
  {
  }

  /** On a stream whose every attempt picks a certain candidate k, `count`
      draws complete after exactly 2·count values. */
  lemma {:induction false} DrawManyPicks(w: Wheel, k: nat, count: nat, stream: seq<real>)
    requires Valid(w) && IsUnitStream(stream) && k < |w.acceptance| && w.acceptance[k] == 1.0
    requires AllPick(w, stream, k) && |stream| >= 2 * count
    ensures DrawMany(w, count, stream).Some?
    ensures DrawMany(w, count, stream).value.1 == stream[2 * count..]
    decreases count
  {
    if count > 0 {
      CertainDraw(w, k, stream);
      AllPickSuffix(w, stream, k, 1);
      DrawManyPicks(w, k, count - 1, stream[2..]);
      DrawManyStep(w, count, stream, k, stream[2..]);
      assert stream[2..][2 * (count - 1)..] == stream[2 * count..];
    }
  }

  /** The values `trials` trials of `summands` certain draws consume. */
  function Needed(summands: nat, trials: nat): nat {
    if trials == 0 then 0 else Needed(summands, trials - 1) + 2 * summands
  }

  lemma {:induction false} NeededIsProduct(summands: nat, trials: nat)
    ensures Needed(summands, trials) == 2 * summands * trials
  {
    if trials > 0 {
      NeededIsProduct(summands, trials - 1);
      assert 2 * summands * trials == 2 * summands * (trials - 1) + 2 * summands;
    }
  }

  lemma SampleTrialsStep(w: Wheel, sampleSize: nat, summands: nat, stream: seq<real>)
    requires Valid(w) && IsUnitStream(stream) && sampleSize > 0
    requires DrawMany(w, summands, stream).Some?
    requires var rest := DrawMany(w, summands, stream).value.1;
      IsUnitStream(rest) && SampleTrials(w, sampleSize - 1, summands, rest).Some?
    ensures SampleTrials(w, sampleSize, summands, stream).Some?
  {
  }

  lemma {:induction false} SampleTrialsPicks(w: Wheel, k: nat, sampleSize: nat, summands: nat, stream: seq<real>)
    requires Valid(w) && IsUnitStream(stream) && k < |w.acceptance| && w.acceptance[k] == 1.0
    requires AllPick(w, stream, k) && |stream| >= Needed(summands, sampleSize)
    ensures SampleTrials(w, sampleSize, summands, stream).Some?
    decreases sampleSize
  {
    if sampleSize > 0 {
      var rest := stream[2 * summands..];
      DrawManyPicks(w, k, summands, stream);
      AllPickSuffix(w, stream, k, summands);
      SampleTrialsPicks(w, k, sampleSize - 1, summands, rest);
      SampleTrialsStep(w, sampleSize, summands, stream);
    }
  }

  /** A wheel with a single positive weight at index k: every sum of m draws
      equals m·k, and a stream whose every attempt picks k and holds two
      values per draw completes. With weights (0, 1, 0) row n of every
      trial holds n. */
  lemma DeterministicSums(weights: seq<real>, k: nat, summands: nat, sampleSize: nat, stream: seq<real>)
    requires NonNegative(weights) && OnlyPositive(weights, k) && IsUnitStream(stream)
    ensures var r := SampleCumulativeSums(MakeWheel(weights).value, summands, sampleSize, stream);
      r.Some? ==> forall m, t :: 0 <= m < summands && 0 <= t < sampleSize ==> r.value.0[m][t] == m * k
    ensures var w := MakeWheel(weights).value;
      AllPick(w, stream, k) && |stream| >= 2 * summands * sampleSize ==>
      SampleCumulativeSums(w, summands, sampleSize, stream).Some?
  {
    AcceptanceRatios(weights);
    var w := MakeWheel(weights).value;
    if AllPick(w, stream, k) && |stream| >= 2 * summands * sampleSize {
      OnlyPositiveWheel(weights, k);
      NeededIsProduct(summands, sampleSize);
      SampleTrialsPicks(w, k, sampleSize, summands, stream);
    }
    var r := SampleCumulativeSums(w, summands, sampleSize, stream);
    if r.Some? {
      var trials := SampleTrials(w, sampleSize, summands, stream).value.0;
      forall m, t | 0 <= m < summands && 0 <= t < sampleSize
        ensures r.value.0[m][t] == m * k
      {
        SumConstant(trials[t][..m], k);
      }
    }
  }
}
