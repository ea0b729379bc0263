# Picard analysis cores in Dafny

This project models the computational cores of several Picard command-line
tools. Each core is written as pure Dafny functions and methods over
sequences, and the project proves what those cores compute.

- **Theoretical het-SNP sensitivity** (`TheoreticalSensitivity`), in five modules:
  - `RouletteWheel`: the stochastic-acceptance sampler and its cumulative-sum sampler.
  - `ThresholdProportions`: the fraction of sampled quality sums at or above each threshold.
  - `BinomialTable`: the table C(n,m)/2ⁿ built by recurrence.
  - `TheoreticalSensitivity`: the double sum that combines these.
  - Randomness is an explicit stream of reals in [0,1) supplied by the caller.
- **`GcBias`**: the sliding GC window of `CollectGcBiasMetrics`.
  - The incremental counter is proved equal to a direct recount.
  - The window array and the GC histogram are built per reference.
- **`BaseDistribution`**: the per-cycle base histogram of `CollectBaseDistributionByCycle`.
  - Covers the base classes, the cycle numbering and the array growth.
  - Proves the invariant that per-class totals add up to the per-cycle counts.
  - Covers the choice of emitted cycles and the read filter.
- **`ArtifactMetrics`**: the parts of `CollectSequencingArtifactMetrics` that decide things.
  - The option validator, the record filters and the library check.
  - The per-position inclusion checks and the base-quality cutoff.
  - Detail-metric selection.
- **`Fasta`**: the record writers of `NormalizeFasta` and `ExtractSequences`.
  - Each record is a header line, then the bases wrapped at `LINE_LENGTH`.
  - The writer's break rule is proved equal to a split into full lines.
  - Removing the breaks gives back the bases.
- **`Wrappers`** (`Option`, `Result`) and **`Ascii`** (ASCII upper-casing) are shared helpers.

Doubles are modelled as `real`. `Math.log10(2)` is a positive real parameter.
Java's `%` on a non-negative left operand is modelled as remainder modulo the
absolute value of the divisor. A zero divisor is an error value.

## Model

| member | source | states |
|---|---|---|
| RouletteWheel.MaxWeight | src/java/picard/analysis/TheoreticalSensitivity.java:109 | The maximum is one of the weights and no weight exceeds it. |
| RouletteWheel.MakeWheel | src/java/picard/analysis/TheoreticalSensitivity.java:105-113 | Construction fails exactly when the weight list is empty, as `Collections.max` does. Otherwise the wheel has one acceptance ratio per weight, namely the weight over the maximum. |
| RouletteWheel.RatioBounds | src/java/picard/analysis/TheoreticalSensitivity.java:111 | For 0 ≤ w ≤ wMax the ratio lies in [0,1]. It is positive iff w is, and it is 1 when w is a positive maximum. |
| RouletteWheel.AcceptanceRatios | src/java/picard/analysis/TheoreticalSensitivity.java:105-112 | For a non-empty non-negative weight list, every ratio lies in [0,1] and is positive exactly for positive weights. Every positive maximal weight gets ratio 1. |
| RouletteWheel.PickIndex | src/java/picard/analysis/TheoreticalSensitivity.java:117 | `(int)(N * u)` for u in [0,1) is an index in [0,N). |
| RouletteWheel.Draw | src/java/picard/analysis/TheoreticalSensitivity.java:115-120 | A completed draw returns an index of the wheel whose acceptance ratio is positive. It consumes at least the two uniform values of one attempt. What remains is a suffix of the stream. |
| RouletteWheel.DrawCompletes | src/java/picard/analysis/TheoreticalSensitivity.java:115-120 | A draw runs out of stream exactly when no attempt in the stream accepts its candidate. So a stream holding an accepting attempt always completes. |
| RouletteWheel.DrawIsFirstAccepted | src/java/picard/analysis/TheoreticalSensitivity.java:115-120 | The loop stops at the first accepting attempt: the draw returns that attempt's candidate and the stream after it. |
| RouletteWheel.DrawHasPositiveWeight | src/java/picard/analysis/TheoreticalSensitivity.java:115-120 | Every index a wheel built from non-negative weights returns has a positive weight. |
| RouletteWheel.DeterministicDraw | src/tests/java/picard/analysis/TheoreticalSensitivityTest.java:22-24 | With exactly one positive weight, every completed draw returns its index. A draw runs out of stream exactly when no attempt picks that index, so the test's weights (0, 1, 0) always draw 1. |
| RouletteWheel.DeterministicDrawConsumes | src/java/picard/analysis/TheoreticalSensitivity.java:115-120 | With exactly one positive weight k, the draw returns k and consumes the stream up to and including the first attempt that picks k. |
| RouletteWheel.DrawMany | src/java/picard/analysis/TheoreticalSensitivity.java:129-132 | A completed run of `count` draws yields `count` indices, each with positive acceptance. What remains is a suffix of the stream. |
| RouletteWheel.SampleTrials | src/java/picard/analysis/TheoreticalSensitivity.java:127-133 | There is one trial per iteration, and each trial holds `maxNumberOfSummands` positive-weight draws. |
| RouletteWheel.RunningSums | src/java/picard/analysis/TheoreticalSensitivity.java:128-131 | Entry m of one trial's cumulative sums is the sum of the trial's first m draws, since the sum is stored before the draw is added. |
| RouletteWheel.SumsFromTrials | src/java/picard/analysis/TheoreticalSensitivity.java:124-133 | Row m, column t of the result is the sum of the first m draws of trial t. The table has one row per summand count and one column per trial. |
| RouletteWheel.SampleCumulativeSums | src/java/picard/analysis/TheoreticalSensitivity.java:123-135 | The result has `maxNumberOfSummands` rows of `sampleSize` entries. |
| RouletteWheel.CumulativeRows | src/java/picard/analysis/TheoreticalSensitivity.java:128-131 | Row 0 is all zeros. Row m+1 equals row m plus draw m of the same trial. |
| RouletteWheel.SampledSumsBounded | src/java/picard/analysis/TheoreticalSensitivity.java:123-135 | A sum of m draws from a wheel of N weights is at most m·(N−1). |
| RouletteWheel.DeterministicSums | src/tests/java/picard/analysis/TheoreticalSensitivityTest.java:26-28 | With a single positive weight k, every entry of row m is m·k. The test uses k = 1, so entry n is n. A stream whose every attempt picks k, with two values per draw, completes the whole table. |
| ThresholdProportions.CountPermutation | src/java/picard/analysis/TheoreticalSensitivity.java:50 | The number of samples at or above a threshold does not depend on the order of the samples, so sorting first cannot change a proportion. |
| ThresholdProportions.CountSortedSplit | src/java/picard/analysis/TheoreticalSensitivity.java:54-60 | In a sorted row where samples 0..j−1 are below t and sample j is not, exactly size − j samples are at or above t. That is the value the merge stores. |
| ThresholdProportions.Insert | src/java/picard/analysis/TheoreticalSensitivity.java:50 | Inserting into a sorted row keeps it sorted and adds exactly the one new element. |
| ThresholdProportions.Sort | src/java/picard/analysis/TheoreticalSensitivity.java:50 | The sorted row is in ascending order and is a permutation of the input. |
| ThresholdProportions.MergeRow | src/java/picard/analysis/TheoreticalSensitivity.java:49-62 | The single-pass merge of a sorted row against ascending thresholds makes cell n the fraction of samples not below threshold n. This equals the naive count. A sample equal to the threshold counts, and a row without samples gives zeros. |
| ThresholdProportions.ProportionsAboveThresholds | src/java/picard/analysis/TheoreticalSensitivity.java:43-67 | There is one row per sample list and one cell per threshold. Cell (m,n) is the fraction of list m not below threshold n, whatever order the list is in. |
| ThresholdProportions.MergeAsWrittenFails | src/java/picard/analysis/TheoreticalSensitivity.java:54-63 | The merge as written throws exactly when some sample reaches the first threshold. That is every row that should get a nonzero cell. |
| ThresholdProportions.UnitTestRowAsWritten | src/java/picard/analysis/TheoreticalSensitivity.java:59-63 | On the test's first row [0,0,0] with thresholds (−1,1,6), the code as written throws. The corrected merge gives [1,0,0]. |
| ThresholdProportions.ProportionBounds | src/java/picard/analysis/TheoreticalSensitivity.java:60 | Every stored proportion lies in [0,1]. It is 1 for a threshold at or below every sample and 0 for a threshold above every sample. |
| ThresholdProportions.UnitTestVectors | src/tests/java/picard/analysis/TheoreticalSensitivityTest.java:43-62 | On the test's three sample lists and thresholds the result is [[1,0,0],[1,1,1],[0.75,0.75,0.25]]. |
| ThresholdProportions.EqualSampleVector | src/java/picard/analysis/TheoreticalSensitivity.java:55 | A sample equal to the threshold counts as above it: samples (6,4) against threshold 6 give 0.5. |
| BinomialTable.BinomAbsorption | src/java/picard/analysis/TheoreticalSensitivity.java:81 | m·C(n,m) = n·C(n−1,m−1), the identity the recurrence relies on. |
| BinomialTable.NextRow | src/java/picard/analysis/TheoreticalSensitivity.java:75-85 | Row n built from row n−1 has n+1 entries. |
| BinomialTable.InteriorEntry | src/java/picard/analysis/TheoreticalSensitivity.java:82 | When the previous entry is C(n−1,m−1)/2ⁿ⁻¹, the interior recurrence gives C(n,m)/2ⁿ. |
| BinomialTable.BoundaryEntry | src/java/picard/analysis/TheoreticalSensitivity.java:79-85 | Half of C(n−1,0)/2ⁿ⁻¹ is both C(n,0)/2ⁿ and C(n,n)/2ⁿ. |
| BinomialTable.RecurrenceClosedForm | src/java/picard/analysis/TheoreticalSensitivity.java:77-85 | When the previous row is the binomial row n−1, the recurrence produces exactly C(n,m)/2ⁿ for every m ≤ n. |
| BinomialTable.HetAltDepthDistribution | src/java/picard/analysis/TheoreticalSensitivity.java:72-92 | The table has N rows. Row 0 is [1,1], because the m = n element is appended again for n = 0. For n ≥ 1, row n has n+1 entries and entry m is C(n,m)/2ⁿ. |
| BinomialTable.BinomRowTotal | src/java/picard/analysis/TheoreticalSensitivity.java:70-71 | The binomial coefficients of row n sum to 2ⁿ. |
| BinomialTable.ClosedFormRowSum | src/java/picard/analysis/TheoreticalSensitivity.java:84-85 | A row of C(n,m)/2ⁿ sums to 1, and its first and last entries are equal. |
| BinomialTable.RowsSumToOne | src/java/picard/analysis/TheoreticalSensitivity.java:72-92 | The first n+1 entries of every row sum to 1. For n ≥ 1 the whole row sums to 1 and starts and ends with the same value. Row 0 sums to 2. |
| BinomialTable.EntriesAreProbabilities | src/java/picard/analysis/TheoreticalSensitivity.java:70-71 | Every table entry lies in [0,1]. |
| TheoreticalSensitivity.Thresholds | src/java/picard/analysis/TheoreticalSensitivity.java:25-26 | There are N thresholds, and threshold n is 10·(n·log10(2) + logOdds). |
| TheoreticalSensitivity.ThresholdsIncrease | src/java/picard/analysis/TheoreticalSensitivity.java:26 | The thresholds strictly increase in n, so they meet the merge's ascending-order requirement. |
| TheoreticalSensitivity.ExceedanceIsProbability | src/java/picard/analysis/TheoreticalSensitivity.java:29-31 | Every probability to exceed a threshold lies in [0,1]. |
| TheoreticalSensitivity.ProportionsAreExceedance | src/java/picard/analysis/TheoreticalSensitivity.java:31 | The table the proportions method returns is the exceedance table of the sampled sums. |
| TheoreticalSensitivity.HetAltRowsAreDistributions | src/java/picard/analysis/TheoreticalSensitivity.java:32 | Every row of the alt-depth table is a probability distribution over m ≤ n. |
| TheoreticalSensitivity.RowTermsBounds | src/java/picard/analysis/TheoreticalSensitivity.java:35-37 | The inner sum for depth n lies between 0 and depth[n] times the binomial mass it covers. |
| TheoreticalSensitivity.DoubleSumBounds | src/java/picard/analysis/TheoreticalSensitivity.java:33-39 | The double sum over the first k depths lies between 0 and the depth mass of those k depths. |
| TheoreticalSensitivity.SensitivityIsProbability | src/java/picard/analysis/TheoreticalSensitivity.java:10 | When the depth distribution is non-negative with total at most 1, as documented, the sensitivity lies in [0,1]. |
| TheoreticalSensitivity.DoubleSumExtremes | src/java/picard/analysis/TheoreticalSensitivity.java:33-39 | If every exceedance probability is 1, the sum is the total depth mass. If every one is 0, the sum is 0. |
| TheoreticalSensitivity.LowThresholdDetectsEverything | src/java/picard/analysis/TheoreticalSensitivity.java:24-39 | With logOdds ≤ −N·log10(2) every threshold is at most 0, every non-negative quality sum exceeds it, and the sensitivity equals the total depth mass. |
| TheoreticalSensitivity.HighThresholdDetectsNothing | src/java/picard/analysis/TheoreticalSensitivity.java:24-39 | When 10·logOdds exceeds N times the largest quality, no quality sum reaches any threshold and the sensitivity is 0. |
| TheoreticalSensitivity.Accumulate | src/java/picard/analysis/TheoreticalSensitivity.java:33-39 | The nested loop computes Σₙ Σ_{m≤n} depth[n]·binom[n][m]·exceed[m][n]. |
| TheoreticalSensitivity.HetSnpSensitivity | src/java/picard/analysis/TheoreticalSensitivity.java:16-40 | The result equals the sensitivity formula (`Formula`): the double sum over the binomial table and the directly counted exceedance table of the sampled quality sums, with the thresholds of line 26. An empty quality distribution is exactly the error case, because `Collections.max` throws, and running out of random values is reported. For a depth distribution the result lies in [0,1]. |
| GcBias.CountsBounded | src/java/picard/analysis/CollectGcBiasMetrics.java:246-250 | A window never holds more G/C bases than its length. |
| GcBias.WindowGcRange | src/java/picard/analysis/CollectGcBiasMetrics.java:260-261 | A window's GC is −1 exactly when it has more than four N bases. Otherwise it is a percentage in 0..100. |
| GcBias.PercentBound | src/java/picard/analysis/CollectGcBiasMetrics.java:261 | An integer percentage of a part of a whole lies in 0..100. |
| GcBias.CalculateGc | src/java/picard/analysis/CollectGcBiasMetrics.java:241-262 | When successive windows shift by exactly one, the incrementally kept G/C and N counts equal a direct recount of the current window. The prior base is the window's first base. The returned value is that window's GC. |
| GcBias.Shifted | src/java/picard/analysis/CollectGcBiasMetrics.java:251-258 | Adding the entering base and removing the base that left gives the counts of the shifted window. |
| GcBias.UpperCaseCountsSoftMasked | src/java/picard/analysis/CollectGcBiasMetrics.java:173 | After upper-casing, a base counts as G/C iff it was one of G, C, g, c, and as a no-call iff it was N or n. |
| GcBias.CalculateAllGcs | src/java/picard/analysis/CollectGcBiasMetrics.java:224-235 | The array has length refLength+1. Entries 1 ≤ i < lastWindowStart hold the GC of the window starting at i, and every other entry stays 0. Histogram cell g grows by exactly the number of those windows with GC g, so −1 windows add nothing. |
| GcBias.GcByReference | src/java/picard/analysis/CollectGcBiasMetrics.java:170-178 | Every reference name gets an entry. The entry holds the window array of the upper-cased bases of the last reference of that name. The histogram counts the windows of each GC over all references. |
| BaseDistribution.BaseToInt | src/java/picard/analysis/CollectBaseDistributionByCycle.java:138-154 | A/a, C/c, G/g and T/t map to 0, 1, 2 and 3. Every other byte maps to 4. |
| BaseDistribution.Cycle | src/java/picard/analysis/CollectBaseDistributionByCycle.java:167 | The cycle of an offset lies in 1..length. |
| BaseDistribution.CycleBijection | src/java/picard/analysis/CollectBaseDistributionByCycle.java:173 | On either strand, the offset-to-cycle map is a bijection from [0,length) onto 1..length with an explicit inverse. |
| BaseDistribution.Grow | src/java/picard/analysis/CollectBaseDistributionByCycle.java:183-187 | `Arrays.copyOf` to a longer length keeps the prefix and pads with zeros. |
| BaseDistribution.GrowEnd | src/java/picard/analysis/CollectBaseDistributionByCycle.java:182-187 | Growing one end's arrays keeps every existing count and total, zero-fills the new cycles and preserves the count invariant. |
| BaseDistribution.EnsureArraysBigEnough | src/java/picard/analysis/CollectBaseDistributionByCycle.java:180-190 | The arrays never shrink, and the new length is the larger of the old and the requested length. Existing counts are kept, new cycles are 0, and the invariant is preserved. |
| BaseDistribution.CountBases | src/java/picard/analysis/CollectBaseDistributionByCycle.java:166-176 | For each cycle 1..length, the count grows by exactly 1 and the total of that base's class grows by 1. No other cell changes. |
| BaseDistribution.CountBasesConsistent | src/java/picard/analysis/CollectBaseDistributionByCycle.java:168-175 | Counting a read keeps the invariant: for each cycle, the five class totals sum to its count, cycle 0 stays 0, and no cell goes negative. |
| BaseDistribution.NewHistogram | src/java/picard/analysis/CollectBaseDistributionByCycle.java:131-136 | A fresh histogram is empty and satisfies the invariant. |
| BaseDistribution.AddRecord | src/java/picard/analysis/CollectBaseDistributionByCycle.java:156-178 | A record without bases changes nothing. Otherwise the arrays grow to length+1 and the histogram is non-empty. A second-of-pair read is counted only into the second-end arrays and sets the second-end flag. Any other read is counted only into the first-end arrays. The invariant is preserved. |
| BaseDistribution.AddRecords | src/java/picard/analysis/CollectBaseDistributionByCycle.java:192-194 | After a run of records the arrays have the largest requested length. The histogram is empty iff no record had bases; a zero-length read still makes it non-empty. |
| BaseDistribution.FilterCases | src/java/picard/analysis/CollectBaseDistributionByCycle.java:99-107 | Vendor-failed reads are dropped only under `PF_READS_ONLY`, unmapped reads only under `ALIGNED_READS_ONLY`, and secondary or supplementary reads always. |
| BaseDistribution.Collect | src/java/picard/analysis/CollectBaseDistributionByCycle.java:98-108 | The histogram of the filtered records is empty iff no accepted record had bases. |
| BaseDistribution.NonZeroCycles | src/java/picard/analysis/CollectBaseDistributionByCycle.java:198-199 | The emitted cycles are exactly those with a nonzero count, in ascending order. |
| BaseDistribution.LastNonZero | src/java/picard/analysis/CollectBaseDistributionByCycle.java:209 | `firstReadLength` is 0 or the last cycle with a nonzero first-end count. |
| BaseDistribution.LastNonZeroIsLast | src/java/picard/analysis/CollectBaseDistributionByCycle.java:197-210 | The last emitted first-end cycle is that last nonzero cycle. |
| BaseDistribution.EmittedRows | src/java/picard/analysis/CollectBaseDistributionByCycle.java:196-227 | First-end rows are exactly the cycles with nonzero first-end count, and cycle 0 is never emitted. Without a second end only first-end rows appear. With one, the second-end rows are the nonzero second-end cycles shifted by the last first-end cycle. |
| ArtifactMetrics.ContextProblems | src/java/picard/analysis/artifacts/CollectSequencingArtifactMetrics.java:182-186 | A message names a context and the implied length exactly when that context is listed with the wrong length. There are none iff every context has the right length, and never more messages than contexts. |
| ArtifactMetrics.ContextProblemsAppend | src/java/picard/analysis/artifacts/CollectSequencingArtifactMetrics.java:182-186 | Messages follow the contexts in order: two lists one after the other give their messages one after the other, and a single context gives one message iff its length is wrong. Together these fix one message per wrong context, in visiting order. |
| ArtifactMetrics.NoProblemsIffAcceptable | src/java/picard/analysis/artifacts/CollectSequencingArtifactMetrics.java:177-195 | No message is produced iff every rule holds. |
| ArtifactMetrics.ProblemsReported | src/java/picard/analysis/artifacts/CollectSequencingArtifactMetrics.java:188-192 | Each of the size messages appears iff its rule fails. Max < min is reported only when max > 0. |
| ArtifactMetrics.ContextsReported | src/java/picard/analysis/artifacts/CollectSequencingArtifactMetrics.java:180-186 | A wrong-length message for context c appears iff c is to be printed and its length is not 2·CONTEXT_SIZE+1. |
| ArtifactMetrics.Validate | src/java/picard/analysis/artifacts/CollectSequencingArtifactMetrics.java:177-195 | The result is null iff every rule holds. Otherwise it is a non-empty list naming exactly the rules that fail. |
| ArtifactMetrics.DefaultsAreValid | src/java/picard/analysis/artifacts/CollectSequencingArtifactMetrics.java:126-150 | The default options pass validation whenever every context to print has length 3. |
| ArtifactMetrics.EffectiveMaxInsertSize | src/java/picard/analysis/artifacts/CollectSequencingArtifactMetrics.java:232 | A maximum of 0 means `Integer.MAX_VALUE`, and any other value is used as given. |
| ArtifactMetrics.RecordFilters | src/java/picard/analysis/artifacts/CollectSequencingArtifactMetrics.java:225-234 | The five fixed filters come first, in order. The insert-size filter is added, with the effective maximum, exactly when unpaired reads are excluded. |
| ArtifactMetrics.QualitySource | src/java/picard/analysis/artifacts/CollectSequencingArtifactMetrics.java:338-346 | The cutoff reads the original quality iff `USE_OQ` is set and original qualities exist. A base fails iff that quality is below the minimum. |
| ArtifactMetrics.Context | src/java/picard/analysis/artifacts/CollectSequencingArtifactMetrics.java:277-282 | The context has length 2·CONTEXT_SIZE+1, and its middle base is the upper-cased reference base at the position. |
| ArtifactMetrics.Position | src/java/picard/analysis/artifacts/CollectSequencingArtifactMetrics.java:260-293 | A position is counted iff it passes every check: not masked, context inside the reference, no N in the context, quality not below the minimum, and read base not N. What is counted is the upper-cased context and read base. |
| ArtifactMetrics.BlockCounts | src/java/picard/analysis/artifacts/CollectSequencingArtifactMetrics.java:258-294 | A block's counted bases are exactly the outcomes of the per-position checks at its first `done` offsets that pass, in offset order. Each has a full-length context and a read base that is not N. |
| ArtifactMetrics.BlocksCounts | src/java/picard/analysis/artifacts/CollectSequencingArtifactMetrics.java:257-295 | The record's counted bases are the passing per-position outcomes of its blocks, block by block and offset by offset. |
| ArtifactMetrics.CountedBound | src/java/picard/analysis/artifacts/CollectSequencingArtifactMetrics.java:257-295 | A record never counts more bases than its blocks cover. |
| ArtifactMetrics.HeaderLibraries | src/java/picard/analysis/artifacts/CollectSequencingArtifactMetrics.java:209-212 | The libraries are exactly the header's read-group libraries, plus `UnknownLibrary` for groups without one: every named library is in the set, and nothing else is. |
| ArtifactMetrics.AcceptRead | src/java/picard/analysis/artifacts/CollectSequencingArtifactMetrics.java:244-296 | For a record with a base and a quality at every aligned read position: a filtered-out record counts nothing, and a library missing from the header is exactly the error case. Otherwise the record's library is counted with the passing per-position outcomes of its blocks, in order, at most one per covered base. |
| ArtifactMetrics.CleanPositionCounted | src/java/picard/analysis/artifacts/CollectSequencingArtifactMetrics.java:277-290 | Without masks, a position whose context lies in an A/C/G/T reference and whose read base is A/C/G/T with enough quality is counted. |
| ArtifactMetrics.CountedIffYielded | src/java/picard/analysis/artifacts/CollectSequencingArtifactMetrics.java:257-295 | An accepted record counts a base exactly when some offset of one of its alignment blocks passes every check and yields it. |
| ArtifactMetrics.CleanAlignedPositionCounted | src/java/picard/analysis/artifacts/CollectSequencingArtifactMetrics.java:257-295 | For an accepted record without masks, an aligned position whose context lies in an A/C/G/T reference, with a good quality and an A/C/G/T read base, is among the counted bases. |
| ArtifactMetrics.SelectDetails | src/java/picard/analysis/artifacts/CollectSequencingArtifactMetrics.java:313-322 | A detail row is kept iff `CONTEXTS_TO_PRINT` is empty or contains its context. Each kept context appears as often as in the input and dropped ones not at all. An empty set keeps everything. |
| ArtifactMetrics.SelectDetailsAppend | src/java/picard/analysis/artifacts/CollectSequencingArtifactMetrics.java:313-322 | Selection preserves input order: the selection from one list followed by another is the two selections one after the other. |
| Fasta.WrapBases | src/java/picard/reference/NormalizeFasta.java:87-90 | Writing the bases fails exactly when `LINE_LENGTH` is 0 and there are at least two bases, where `%` divides by zero. |
| Fasta.BreakRule | src/java/picard/reference/NormalizeFasta.java:88 | A break is written before base n−1 exactly when it starts a new line of abs(LINE_LENGTH) bases and is not the first base. |
| Fasta.WrapPreservesBases | src/java/picard/reference/NormalizeFasta.java:87-90 | Deleting the inserted line breaks gives back exactly the bases written so far. |
| Fasta.LinesShape | src/java/picard/reference/NormalizeFasta.java:87-92 | Splitting into lines preserves the bases. Every line but the last holds exactly abs(LINE_LENGTH) bases, and the last holds 1..abs(LINE_LENGTH). |
| Fasta.WrapIsJoinedLines | src/java/picard/reference/NormalizeFasta.java:87-90 | The writer's per-base loop produces exactly those lines joined by line breaks. |
| Fasta.NormalizeRecord | src/java/picard/reference/NormalizeFasta.java:78-93 | A record starts with `>`, the name and a newline. A zero-length sequence gives only that header. Otherwise the record ends with a newline. It fails only on a zero `LINE_LENGTH` with two or more bases. |
| Fasta.NormalizeRecordLayout | src/java/picard/reference/NormalizeFasta.java:78-92 | A non-empty record is the header, then the full-width lines joined by breaks, then a final newline. |
| Fasta.NormalizeRecordContent | src/java/picard/reference/NormalizeFasta.java:87-92 | The body of a non-empty record, with its breaks removed, is exactly the input bases. |
| Fasta.Normalize | src/java/picard/reference/NormalizeFasta.java:73-99 | The whole output fails iff `LINE_LENGTH` is 0 and some record has two or more bases. |
| Fasta.NormalizeInOrder | src/java/picard/reference/NormalizeFasta.java:74 | Records are written in input order: appending a sequence appends its record. |
| Fasta.ExtractRecord | src/java/picard/reference/ExtractSequences.java:109-119 | A record is `>`, the interval name and a newline, then the wrapped bases, then always a final newline. An empty interval gives an empty line. It fails only on a zero `LINE_LENGTH` with two or more bases. |
| Fasta.Extract | src/java/picard/reference/ExtractSequences.java:104-125 | Extraction fails iff `LINE_LENGTH` is 0 and some interval has two or more bases, so a nonzero `LINE_LENGTH` always succeeds for intervals the reference holds. |
| Fasta.ExtractInOrder | src/java/picard/reference/ExtractSequences.java:104 | Records are written in interval-list order. |
| Fasta.ExtractedContent | src/java/picard/reference/ExtractSequences.java:105-117 | With the breaks removed, the record body is the interval's reference bases. They are reverse-complemented exactly when the interval is on the negative strand. |

## Left out

- Randomness: the statistical quality of `Math.random` and the convergence check on an unfair coin (TheoreticalSensitivityTest.java:30-38) are not modelled. The caller supplies the random values as a finite stream of reals in [0,1).
- RouletteWheel.Draw: the source loop never ends for a wheel of all-zero weights. For such weights it computes 0/0 and stores NaN ratios that never accept. The model stores ratio 0, which is accepted equally never. A draw is `None` when the stream runs out, so non-termination becomes an exhausted stream.
- Floating point: the model uses real arithmetic. IEEE rounding, NaN and `Math.log10` are not modelled. log10(2) is a positive parameter.
- The `Collections.sort` call sorts the caller's lists in place. The model sorts a copy; only the values are modelled.
- ThresholdProportions.ProportionsAboveThresholds: models the merge the unit test expects, not the code as written. That code throws, as the Findings below show. It also advances the threshold index before storing, an off-by-one that cannot be observed because the crash comes first.
- GcBias: the window size is a positive parameter. In the source, `windowSize` is captured from the option's default before the command line is parsed (CollectGcBiasMetrics.java:137).
- GcBias.CalculateAllGcs: `gcCount * 100` is not checked for 32-bit overflow, which would need windows of over 21 million bases. The byte cast of the result is the identity, since the value lies in −1..100. The comment at CollectGcBiasMetrics.java:238-239 says "more than five" no-calls; the code tests `> 4`, which is what is modelled.
- The GC-bias metrics collector, the reading of reference files and the R plotting are left out. `GcBiasMetricsCollector` is not part of this model.
- BaseDistribution: the percentage doubles in `addToMetricsFile` are not modelled, only which rows are emitted and their cycles. The 64-bit counters are unbounded integers.
- ArtifactMetrics.Position: requires `WellFormed` for the reason given in the next line. Positions whose base or quality is missing are outside the model.
- ArtifactMetrics.AcceptRead: records without a base and a quality (and an original quality, when USE_OQ reads them) at every aligned read position are outside the model. Every counting member requires `WellFormed`. For a record with QUAL `*`, SEQ `*` or a short OQ tag, Java throws `ArrayIndexOutOfBoundsException` at the first aligned position that passes the mask, context and N checks (CollectSequencingArtifactMetrics.java:289, 341, 343). The model neither reports that error nor counts such records.
- ArtifactMetrics.ContextFullLength: `2 * CONTEXT_SIZE + 1` and `contextStartIndex + contextFullLength` (CollectSequencingArtifactMetrics.java:180, 278-279) are 32-bit in the source and wrap for `CONTEXT_SIZE` of 2^30 or more. The model uses unbounded integers, so it does not reproduce the negative length the validator would print, or the bounds check the wrap-around would bypass.
- ArtifactMetrics: `ArtifactCounter`, the interval list and the dbSNP file are not part of this model. The interval and dbSNP masks are optional predicates on the reference position. The htsjdk record filters are named but their semantics are not modelled. `CONTEXTS_TO_PRINT` is visited in list order, while the source iterates a `HashSet` in unspecified order. Qualities are integers, whereas Java reads signed bytes.
- Ascii.UpperCase: upper-cases only ASCII letters. This covers every byte the tools read as a base. The Unicode case mapping of `String.toUpperCase` on non-ASCII characters is not modelled.
- Fasta: the platform line separator from `newLine()` after the header is taken as "\n". File I/O, the check that input and output differ, and name truncation at whitespace are left out; truncation is done by the reference reader.
- Fasta.OrientedBases: `SequenceUtil.reverseComplement` is not part of this model. It is a function parameter. The agreement of the sequence dictionaries is the precondition that every interval lies inside its contig.
- Thin tools built on collectors that are not shown are left out: `AddOrReplaceReadGroups`, `DownsampleSam`, `AddCommentsToBam`, `CompareMetrics`, `CollectRawWgsMetrics`, `CalculateHsMetrics` and `CollectTargetedPcrMetrics`.

## Findings

| source | as written | input that shows it | evidently intended | confidence | as-written member | corrected member |
|---|---|---|---|---|---|---|
| src/java/picard/analysis/TheoreticalSensitivity.java:59-63 | The merge stores into `result.get(m)` before row m is added at line 63, so the store throws `IndexOutOfBoundsException`. It also increments n before storing, which skips cell 0. | Sample row [0,0,0] with thresholds (−1, 1, 6), the unit test's first row: sample 0 reaches threshold −1 and the store throws. | Store cell n of the row being built, then advance n, then add the row. This gives [1,0,0] as the test expects. | not executed | ThresholdProportions.MergeAsWrittenFails, ThresholdProportions.UnitTestRowAsWritten | ThresholdProportions.MergeRow |
