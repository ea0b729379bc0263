/** The per-cycle base histogram of `CollectBaseDistributionByCycle`
    (`HistogramGenerator`) and the read filter in front of it.

    The histogram keeps, for each read end, a count of bases per cycle and a
    count per base class per cycle; cycles are 1-based, so index 0 is never
    counted. The five base classes are A, C, G, T and "anything else". */
module BaseDistribution {
  import opened Wrappers

  const BaseClasses: nat := 5

  /** `baseToInt`: A/a, C/c, G/g, T/t to 0..3, every other byte to 4. */
  function BaseToInt(b: char): (k: nat)
    ensures k < BaseClasses
    ensures k == 0 <==> b in "Aa"
    ensures k == 1 <==> b in "Cc"
    ensures k == 2 <==> b in "Gg"
    ensures k == 3 <==> b in "Tt"
    ensures k == 4 <==> b !in "AaCcGgTt"
  {
    match b
    case 'A' => 0 case 'a' => 0
    case 'C' => 1 case 'c' => 1
    case 'G' => 2 case 'g' => 2
    case 'T' => 3 case 't' => 3
    case _ => 4
  }

  /** The cycle of offset i in a read of the given length: i + 1 on the
      forward strand, length - i on the reverse strand. */
  function Cycle(i: nat, length: nat, reverse: bool): (c: nat)
    requires i < length
    ensures 1 <= c <= length
  {
    if reverse then length - i else i + 1
  }

  /** The offset read at cycle c: the inverse of `Cycle`. */
  function CycleOffset(c: nat, length: nat, reverse: bool): (i: nat)
    requires 1 <= c <= length
    ensures i < length
  {
    if reverse then length - c else c - 1
  }

  /** `Cycle` is a bijection from the offsets [0, length) onto the cycles
      1..length, with `CycleOffset` as its inverse. */
  lemma CycleBijection(length: nat, reverse: bool)
    ensures forall i :: 0 <= i < length ==> CycleOffset(Cycle(i, length, reverse), length, reverse) == i
    ensures forall c :: 1 <= c <= length ==> Cycle(CycleOffset(c, length, reverse), length, reverse) == c
    ensures forall i, j :: 0 <= i < length && 0 <= j < length && i != j ==>
      Cycle(i, length, reverse) != Cycle(j, length, reverse)
  {
  }

  /** One read end's arrays: `totals[b][c]` and `counts[c]`. */
  datatype EndCounts = EndCounts(totals: seq<seq<int>>, counts: seq<int>)

  ghost predicate Shaped(e: EndCounts, size: nat) {
    && |e.totals| == BaseClasses
    && |e.counts| == size
    && forall b :: 0 <= b < BaseClasses ==> |e.totals[b]| == size
  }

  function ClassSum(e: EndCounts, c: nat): int
    requires Shaped(e, |e.counts|) && c < |e.counts|
  {
    e.totals[0][c] + e.totals[1][c] + e.totals[2][c] + e.totals[3][c] + e.totals[4][c]
  }

  /** The count invariant: per cycle, the five class totals add up to the
      cycle's count; cycle 0 is never counted; nothing is negative. */
  ghost predicate Consistent(e: EndCounts) {
    && Shaped(e, |e.counts|)
    && (forall c :: 0 <= c < |e.counts| ==> ClassSum(e, c) == e.counts[c])
    && (|e.counts| > 0 ==> e.counts[0] == 0)
    && (forall b, c :: 0 <= b < BaseClasses && 0 <= c < |e.counts| ==> e.totals[b][c] >= 0)
  }

  datatype Histogram = Histogram(
    maxLengthSoFar: nat,
    first: EndCounts,
    second: EndCounts,
    seenSecondEnd: bool)

  ghost predicate Valid(h: Histogram) {
    && Shaped(h.first, h.maxLengthSoFar) && Consistent(h.first)
    && Shaped(h.second, h.maxLengthSoFar) && Consistent(h.second)
  }

  function EmptyEnd(): (e: EndCounts)
    ensures Shaped(e, 0) && Consistent(e)
  {
    EndCounts(seq(BaseClasses, _ => []), [])
  }

  /** A fresh generator: arrays of length 0. */
  function NewHistogram(): (h: Histogram)
    ensures Valid(h) && IsEmpty(h)
  {
    Histogram(0, EmptyEnd(), EmptyEnd(), false)
  }

  /** `isEmpty`: no array has been grown yet. */
  predicate IsEmpty(h: Histogram) {
    h.maxLengthSoFar == 0
  }

  /** `Arrays.copyOf(a, length)` for a length that is not shorter. */
  function Grow(a: seq<int>, length: nat): (r: seq<int>)
    requires |a| <= length
    ensures |r| == length && r[..|a|] == a
    ensures forall k :: |a| <= k < length ==> r[k] == 0
  {
    a + seq(length - |a|, _ => 0)
  }

  function GrowEnd(e: EndCounts, length: nat): (r: EndCounts)
    requires Shaped(e, |e.counts|) && |e.counts| <= length
    ensures Shaped(r, length)
    ensures Consistent(e) ==> Consistent(r)
    ensures forall c :: 0 <= c < |e.counts| ==> r.counts[c] == e.counts[c]
    ensures forall b, c :: 0 <= b < BaseClasses && 0 <= c < |e.counts| ==> r.totals[b][c] == e.totals[b][c]
    ensures forall c :: |e.counts| <= c < length ==> r.counts[c] == 0
    ensures forall b, c :: 0 <= b < BaseClasses && |e.counts| <= c < length ==> r.totals[b][c] == 0
  {
    var totals := seq(BaseClasses, b requires 0 <= b < BaseClasses => Grow(e.totals[b], length));
    var r := EndCounts(totals, Grow(e.counts, length));
    assert forall b :: 0 <= b < BaseClasses ==> r.totals[b] == Grow(e.totals[b], length);
    GrowKeepsConsistent(e, r);
    r
  }

  /** Zero-filled growth keeps the count invariant. */
  lemma GrowKeepsConsistent(e: EndCounts, r: EndCounts)
    requires Shaped(e, |e.counts|) && Shaped(r, |r.counts|) && |e.counts| <= |r.counts|
    requires forall c :: 0 <= c < |e.counts| ==> r.counts[c] == e.counts[c]
    requires forall b, c :: 0 <= b < BaseClasses && 0 <= c < |e.counts| ==> r.totals[b][c] == e.totals[b][c]
    requires forall c :: |e.counts| <= c < |r.counts| ==> r.counts[c] == 0
    requires forall b, c :: 0 <= b < BaseClasses && |e.counts| <= c < |r.counts| ==> r.totals[b][c] == 0
    ensures Consistent(e) ==> Consistent(r)
  {
    if Consistent(e) {
      forall c | 0 <= c < |r.counts|
        ensures ClassSum(r, c) == r.counts[c]
      {
        if c < |e.counts| {
          assert ClassSum(r, c) == ClassSum(e, c);
        }
      }
    }
  }

  /** `ensureArraysBigEnough(length)`: grow every array to `length` when it
      is longer than the current size, keeping every existing count; never
      shrink. */
  function EnsureArraysBigEnough(h: Histogram, length: nat): (r: Histogram)
    requires Valid(h)
    ensures Valid(r)
    ensures r.maxLengthSoFar == if length > h.maxLengthSoFar then length else h.maxLengthSoFar
    ensures r.seenSecondEnd == h.seenSecondEnd
    ensures forall c :: 0 <= c < h.maxLengthSoFar ==>
      r.first.counts[c] == h.first.counts[c] && r.second.counts[c] == h.second.counts[c]
    ensures forall b, c :: 0 <= b < BaseClasses && 0 <= c < h.maxLengthSoFar ==>
      r.first.totals[b][c] == h.first.totals[b][c] && r.second.totals[b][c] == h.second.totals[b][c]
    ensures forall c :: h.maxLengthSoFar <= c < r.maxLengthSoFar ==>
      r.first.counts[c] == 0 && r.second.counts[c] == 0
  {
    if length > h.maxLengthSoFar then
      GrownValid(h, length);
      GrownKeeps(h, length);
      Histogram(length, GrowEnd(h.first, length), GrowEnd(h.second, length), h.seenSecondEnd)
    else h
  }

  lemma GrownValid(h: Histogram, length: nat)
    requires Valid(h) && length > h.maxLengthSoFar
    ensures Valid(Histogram(length, GrowEnd(h.first, length), GrowEnd(h.second, length), h.seenSecondEnd))
  {
  }

  lemma GrownKeeps(h: Histogram, length: nat)
    requires Valid(h) && length > h.maxLengthSoFar
    ensures var first, second := GrowEnd(h.first, length), GrowEnd(h.second, length);
      && (forall c :: 0 <= c < h.maxLengthSoFar ==>
            first.counts[c] == h.first.counts[c] && second.counts[c] == h.second.counts[c])
      && (forall b, c :: 0 <= b < BaseClasses && 0 <= c < h.maxLengthSoFar ==>
            first.totals[b][c] == h.first.totals[b][c] && second.totals[b][c] == h.second.totals[b][c])
      && (forall c :: h.maxLengthSoFar <= c < length ==> first.counts[c] == 0 && second.counts[c] == 0)
  {
  }

  /** 1 when cycle c of the read is a base of class b (among the first
      `done` offsets), else 0. */
  function Hit(bases: seq<char>, reverse: bool, b: nat, c: nat, done: nat): int {
    if 1 <= c <= |bases| && CycleOffset(c, |bases|, reverse) < done
       && BaseToInt(bases[CycleOffset(c, |bases|, reverse)]) == b
    then 1 else 0
  }

  /** 1 when cycle c of the read is one of the first `done` offsets. */
  function Covered(length: nat, reverse: bool, c: nat, done: nat): int {
    if 1 <= c <= length && CycleOffset(c, length, reverse) < done then 1 else 0
  }

  /** Every covered cycle hits exactly one base class. */
  lemma HitsPartitionCovered(bases: seq<char>, reverse: bool, c: nat, done: nat)
    ensures Hit(bases, reverse, 0, c, done) + Hit(bases, reverse, 1, c, done) + Hit(bases, reverse, 2, c, done)
          + Hit(bases, reverse, 3, c, done) + Hit(bases, reverse, 4, c, done)
         == Covered(|bases|, reverse, c, done)
  {
  }

  /** The counting loop of `addRecord` for one read end: for every offset i
      of the read, count its cycle once and its base class at that cycle
      once. */
  method CountBases(e: EndCounts, bases: seq<char>, reverse: bool) returns (r: EndCounts)
    requires Shaped(e, |e.counts|) && |bases| < |e.counts|
    ensures Shaped(r, |e.counts|)
    ensures forall c :: 0 <= c < |e.counts| ==>
      r.counts[c] == e.counts[c] + Covered(|bases|, reverse, c, |bases|)
    ensures forall b, c :: 0 <= b < BaseClasses && 0 <= c < |e.counts| ==>
      r.totals[b][c] == e.totals[b][c] + Hit(bases, reverse, b, c, |bases|)
  {
    var length := |bases|;
    r := e;
    for i := 0 to length
      invariant Shaped(r, |e.counts|)
      invariant forall c :: 0 <= c < |e.counts| ==>
        r.counts[c] == e.counts[c] + Covered(length, reverse, c, i)
      invariant forall b, c :: 0 <= b < BaseClasses && 0 <= c < |e.counts| ==>
        r.totals[b][c] == e.totals[b][c] + Hit(bases, reverse, b, c, i)
    {
      var cycle := Cycle(i, length, reverse);
      var k := BaseToInt(bases[i]);
      CycleBijection(length, reverse);
      var row := r.totals[k][cycle := r.totals[k][cycle] + 1];
      r := EndCounts(r.totals[k := row], r.counts[cycle := r.counts[cycle] + 1]);
    }
  }

  /** A read's contribution keeps the count invariant. */
  lemma CountBasesConsistent(e: EndCounts, r: EndCounts, bases: seq<char>, reverse: bool)
    requires Consistent(e) && Shaped(r, |e.counts|) && |bases| < |e.counts|
    requires forall c :: 0 <= c < |e.counts| ==>
      r.counts[c] == e.counts[c] + Covered(|bases|, reverse, c, |bases|)
    requires forall b, c :: 0 <= b < BaseClasses && 0 <= c < |e.counts| ==>
      r.totals[b][c] == e.totals[b][c] + Hit(bases, reverse, b, c, |bases|)
    ensures Consistent(r)
  {
    forall c | 0 <= c < |e.counts|
      ensures ClassSum(r, c) == r.counts[c]
    {
      HitsPartitionCovered(bases, reverse, c, |bases|);
    }
  }

  /** The parts of a SAM record the histogram and its filter look at; a
      record without stored bases has `bases == None`. */
  datatype Read = Read(
    bases: Option<seq<char>>,
    negativeStrand: bool,
    paired: bool,
    secondOfPair: bool,
    failsVendorQuality: bool,
    unmapped: bool,
    secondaryOrSupplementary: bool)

  predicate IsSecondEnd(rec: Read) {
    rec.paired && rec.secondOfPair
  }

  /** `addRecord`: a record without bases changes nothing; otherwise the
      arrays grow to length + 1 and the read is counted into the second-end
      arrays when it is the second of a pair, into the first-end arrays
      otherwise. The other end's arrays only grow. */
  method AddRecord(h: Histogram, rec: Read) returns (r: Histogram)
    requires Valid(h)
    ensures Valid(r)
    ensures rec.bases.None? ==> r == h
    ensures rec.bases.Some? ==> !IsEmpty(r)
    ensures rec.bases.Some? ==>
      && r.maxLengthSoFar == Grown(h, rec).maxLengthSoFar
      && r.seenSecondEnd == (h.seenSecondEnd || IsSecondEnd(rec))
    ensures rec.bases.Some? && IsSecondEnd(rec) ==>
      && r.first == Grown(h, rec).first
      && CountedRead(Grown(h, rec).second, r.second, rec.bases.value, rec.negativeStrand)
    ensures rec.bases.Some? && !IsSecondEnd(rec) ==>
      && r.second == Grown(h, rec).second
      && CountedRead(Grown(h, rec).first, r.first, rec.bases.value, rec.negativeStrand)
  {
    if rec.bases.None? {
      return h;
    }
    var bases := rec.bases.value;
    var grown := Grown(h, rec);
    if IsSecondEnd(rec) {
      var second := CountBases(grown.second, bases, rec.negativeStrand);
      CountBasesConsistent(grown.second, second, bases, rec.negativeStrand);
      assert CountedRead(grown.second, second, bases, rec.negativeStrand);
      r := grown.(second := second, seenSecondEnd := true);
    } else {
      var first := CountBases(grown.first, bases, rec.negativeStrand);
      CountBasesConsistent(grown.first, first, bases, rec.negativeStrand);
      assert CountedRead(grown.first, first, bases, rec.negativeStrand);
      r := grown.(first := first);
    }
    assert Valid(r);
  }

  /** The histogram with its arrays grown for a record's bases. */
  function Grown(h: Histogram, rec: Read): Histogram
    requires Valid(h) && rec.bases.Some?
  {
    EnsureArraysBigEnough(h, |rec.bases.value| + 1)
  }

  /** One end's arrays after counting a read: per cycle, one more in the
      count when the read covers the cycle, and one more in the total of
      the base class the read has there. */
  ghost predicate CountedRead(before: EndCounts, after: EndCounts, bases: seq<char>, reverse: bool)
    requires Shaped(before, |before.counts|)
  {
    && Shaped(after, |before.counts|)
    && (forall c :: 0 <= c < |before.counts| ==>
          after.counts[c] == before.counts[c] + Covered(|bases|, reverse, c, |bases|))
    && (forall b, c :: 0 <= b < BaseClasses && 0 <= c < |before.counts| ==>
          after.totals[b][c] == before.totals[b][c] + Hit(bases, reverse, b, c, |bases|))
  }

  /** Largest `|bases| + 1` over the records that have bases, 0 if none. */
  function MaxRequested(recs: seq<Read>): nat {
    if |recs| == 0 then 0
    else
      var rest := MaxRequested(recs[..|recs| - 1]);
      var last := recs[|recs| - 1];
      if last.bases.Some? && |last.bases.value| + 1 > rest then |last.bases.value| + 1 else rest
  }

  /** Feeding records in order: the arrays end at the largest requested
      length, and the histogram is empty exactly when no record had bases
      (a read with zero bases still makes it non-empty). */
  method AddRecords(recs: seq<Read>) returns (h: Histogram)
    ensures Valid(h)
    ensures h.maxLengthSoFar == MaxRequested(recs)
    ensures IsEmpty(h) <==> forall k :: 0 <= k < |recs| ==> recs[k].bases.None?
  {
    h := NewHistogram();
    for k := 0 to |recs|
      invariant Valid(h)
      invariant h.maxLengthSoFar == MaxRequested(recs[..k])
      invariant IsEmpty(h) <==> forall j :: 0 <= j < k ==> recs[j].bases.None?
    {
      var prefix := recs[..k + 1];
      assert prefix[..k] == recs[..k] && prefix[k] == recs[k];
      h := AddRecord(h, recs[k]);
    }
    assert recs[..|recs|] == recs;
  }

  /** The options of the read filter. */
  datatype FilterOptions = FilterOptions(pfReadsOnly: bool, alignedReadsOnly: bool)

  /** `acceptRead`: whether a record reaches the histogram. */
  predicate Accepts(opts: FilterOptions, rec: Read) {
    !(opts.pfReadsOnly && rec.failsVendorQuality)
    && !(opts.alignedReadsOnly && rec.unmapped)
    && !rec.secondaryOrSupplementary
  }

  /** Vendor-failed reads are dropped only under `PF_READS_ONLY`, unmapped
      reads only under `ALIGNED_READS_ONLY`, secondary and supplementary
      records always. */
  lemma FilterCases(opts: FilterOptions, rec: Read)
    ensures rec.secondaryOrSupplementary ==> !Accepts(opts, rec)
    ensures !opts.pfReadsOnly && !opts.alignedReadsOnly ==>
      (Accepts(opts, rec) <==> !rec.secondaryOrSupplementary)
    ensures !opts.pfReadsOnly && rec.failsVendorQuality && !rec.unmapped && !rec.secondaryOrSupplementary ==>
      Accepts(opts, rec)
    ensures !opts.alignedReadsOnly && rec.unmapped && !rec.failsVendorQuality && !rec.secondaryOrSupplementary ==>
      Accepts(opts, rec)
    ensures opts.pfReadsOnly && rec.failsVendorQuality ==> !Accepts(opts, rec)
    ensures opts.alignedReadsOnly && rec.unmapped ==> !Accepts(opts, rec)
  {
  }

  /** The whole pass: every record goes through `acceptRead`, and only the
      accepted ones reach `addRecord`; the plot is skipped exactly when no
      accepted record had bases. */
  method Collect(opts: FilterOptions, recs: seq<Read>) returns (h: Histogram)
    ensures Valid(h)
    ensures IsEmpty(h) <==> forall k :: 0 <= k < |recs| && Accepts(opts, recs[k]) ==> recs[k].bases.None?
  {
    h := NewHistogram();
    for k := 0 to |recs|
      invariant Valid(h)
      invariant IsEmpty(h) <==> forall j :: 0 <= j < k && Accepts(opts, recs[j]) ==> recs[j].bases.None?
    {
      if Accepts(opts, recs[k]) {
        h := AddRecord(h, recs[k]);
      }
    }
  }

  /** The indices i in [0, |counts|) with a nonzero count, ascending. */
  function NonZeroCycles(counts: seq<int>): (cycles: seq<int>)
    ensures forall i :: i in cycles <==> 0 <= i < |counts| && counts[i] != 0
    ensures forall k, j :: 0 <= k < j < |cycles| ==> cycles[k] < cycles[j]
  {
    if |counts| == 0 then []
    else
      var prefix := counts[..|counts| - 1];
      var rest := NonZeroCycles(prefix);
      assert forall i :: 0 <= i < |prefix| ==> prefix[i] == counts[i];
      assert forall i :: i in rest <==> 0 <= i < |prefix| && counts[i] != 0;
      assert forall k :: 0 <= k < |rest| ==> rest[k] in rest;
      if counts[|counts| - 1] != 0 then rest + [|counts| - 1] else rest
  }

  /** One emitted row of metrics: the read end and the reported cycle. */
  datatype Emitted = Emitted(readEnd: nat, cycle: int)

  /** Rows for one read end: each index shifted into the reported cycle. */
  function Tag(indices: seq<int>, readEnd: nat, shift: int): (rows: seq<Emitted>)
    ensures |rows| == |indices|
    ensures forall row :: row in rows ==> row.readEnd == readEnd
  {
    seq(|indices|, k requires 0 <= k < |indices| => Emitted(readEnd, indices[k] + shift))
  }

  lemma TagMembership(indices: seq<int>, readEnd: nat, shift: int)
    ensures forall c :: Emitted(readEnd, c + shift) in Tag(indices, readEnd, shift) <==> c in indices
  {
    var rows := Tag(indices, readEnd, shift);
    forall c
      ensures Emitted(readEnd, c + shift) in rows <==> c in indices
    {
      if c in indices {
        var k :| 0 <= k < |indices| && indices[k] == c;
        assert rows[k] == Emitted(readEnd, c + shift);
      }
    }
  }

  /** The cycle selection of `addToMetricsFile`: every first-end index with
      a nonzero count, in order; then, if a second end was seen, every
      second-end index with a nonzero count, reported shifted by the last
      emitted first-end index (0 when none). */
  function EmittedCycles(h: Histogram): (rows: seq<Emitted>) {
    SelectCycles(h.first.counts, h.second.counts, h.seenSecondEnd)
  }

  function SelectCycles(firstCounts: seq<int>, secondCounts: seq<int>, seenSecondEnd: bool): (rows: seq<Emitted>) {
    var seconds := if seenSecondEnd then NonZeroCycles(secondCounts) else [];
    Tag(NonZeroCycles(firstCounts), 1, 0) + Tag(seconds, 2, FirstReadLength(firstCounts))
  }

  lemma FirstTagged(rows: seq<Emitted>, firsts: seq<int>, seconds: seq<int>, shift: int)
    requires rows == Tag(firsts, 1, 0) + Tag(seconds, 2, shift)
    ensures forall c :: Emitted(1, c) in rows <==> c in firsts
  {
    TagMembership(firsts, 1, 0);
    forall c
      ensures Emitted(1, c) in rows <==> c in firsts
    {
      assert Emitted(1, c) == Emitted(1, c + 0);
    }
  }

  lemma SelectedFirstEnd(firstCounts: seq<int>, secondCounts: seq<int>, seenSecondEnd: bool)
    ensures forall c :: Emitted(1, c) in SelectCycles(firstCounts, secondCounts, seenSecondEnd) <==>
      0 <= c < |firstCounts| && firstCounts[c] != 0
  {
    var seconds := if seenSecondEnd then NonZeroCycles(secondCounts) else [];
    FirstTagged(SelectCycles(firstCounts, secondCounts, seenSecondEnd), NonZeroCycles(firstCounts), seconds,
                FirstReadLength(firstCounts));
  }

  lemma SelectedOnlyFirstEnd(firstCounts: seq<int>, secondCounts: seq<int>)
    ensures forall row :: row in SelectCycles(firstCounts, secondCounts, false) ==> row.readEnd == 1
  {
    assert SelectCycles(firstCounts, secondCounts, false)
        == Tag(NonZeroCycles(firstCounts), 1, 0) + Tag([], 2, FirstReadLength(firstCounts));
  }

  lemma SecondTagged(rows: seq<Emitted>, firsts: seq<int>, seconds: seq<int>, shift: int)
    requires rows == Tag(firsts, 1, 0) + Tag(seconds, 2, shift)
    ensures forall c :: Emitted(2, c + shift) in rows <==> c in seconds
  {
    TagMembership(seconds, 2, shift);
  }

  /** `firstReadLength`, the last first-end index emitted, is the largest
      index with a nonzero first-end count. */
  function FirstReadLength(firstCounts: seq<int>): (n: int)
    ensures n == LastNonZero(firstCounts)
  {
    var firsts := NonZeroCycles(firstCounts);
    LastNonZeroIsLast(firstCounts, firsts);
    if |firsts| == 0 then 0 else firsts[|firsts| - 1]
  }

  lemma SelectedSecondEndAt(firstCounts: seq<int>, secondCounts: seq<int>, c: int)
    ensures Emitted(2, c + FirstReadLength(firstCounts)) in SelectCycles(firstCounts, secondCounts, true) <==>
      0 <= c < |secondCounts| && secondCounts[c] != 0
  {
    var seconds := NonZeroCycles(secondCounts);
    var rows := SelectCycles(firstCounts, secondCounts, true);
    SecondTagged(rows, NonZeroCycles(firstCounts), seconds, FirstReadLength(firstCounts));
    assert Emitted(2, c + FirstReadLength(firstCounts)) in rows <==> c in seconds;
  }

  /** What is emitted: first-end rows exactly for the nonzero first-end
      cycles, which are never cycle 0; second-end rows only after a second
      end was seen, each offset by the largest nonzero first-end cycle. */
  lemma EmittedRows(h: Histogram)
    requires Valid(h)
    ensures forall c :: Emitted(1, c) in EmittedCycles(h) <==>
      0 <= c < h.maxLengthSoFar && h.first.counts[c] != 0
    ensures Emitted(1, 0) !in EmittedCycles(h)
    ensures !h.seenSecondEnd ==> forall row :: row in EmittedCycles(h) ==> row.readEnd == 1
    ensures h.seenSecondEnd ==>
      forall c :: Emitted(2, c + FirstReadLength(h.first.counts)) in EmittedCycles(h) <==>
        0 <= c < h.maxLengthSoFar && h.second.counts[c] != 0
  {
    EmittedFirstEnd(h);
    EmittedNoCycleZero(h);
    EmittedSecondEnd(h);
  }

  lemma EmittedSecondEnd(h: Histogram)
    requires Valid(h)
    ensures !h.seenSecondEnd ==> forall row :: row in EmittedCycles(h) ==> row.readEnd == 1
    ensures h.seenSecondEnd ==>
      forall c :: Emitted(2, c + FirstReadLength(h.first.counts)) in EmittedCycles(h) <==>
        0 <= c < h.maxLengthSoFar && h.second.counts[c] != 0
  {
    if h.seenSecondEnd {
      forall c
        ensures Emitted(2, c + FirstReadLength(h.first.counts)) in EmittedCycles(h) <==>
          0 <= c < h.maxLengthSoFar && h.second.counts[c] != 0
      {
        EmittedSecondEndAt(h, c);
      }
    } else {
      SelectedOnlyFirstEnd(h.first.counts, h.second.counts);
    }
  }

  lemma EmittedSecondEndAt(h: Histogram, c: int)
    requires Valid(h) && h.seenSecondEnd
    ensures Emitted(2, c + FirstReadLength(h.first.counts)) in EmittedCycles(h) <==>
      0 <= c < h.maxLengthSoFar && h.second.counts[c] != 0
  {
    SelectedSecondEndAt(h.first.counts, h.second.counts, c);
  }

  lemma EmittedFirstEnd(h: Histogram)
    requires Valid(h)
    ensures forall c :: Emitted(1, c) in EmittedCycles(h) <==>
      0 <= c < h.maxLengthSoFar && h.first.counts[c] != 0
  {
    SelectedFirstEnd(h.first.counts, h.second.counts, h.seenSecondEnd);
  }

  lemma EmittedNoCycleZero(h: Histogram)
    requires Valid(h)
    ensures Emitted(1, 0) !in EmittedCycles(h)
  {
    EmittedFirstEnd(h);
    assert h.maxLengthSoFar > 0 ==> h.first.counts[0] == 0;
  }

  /** The largest index with a nonzero count, 0 when there is none. */
  function LastNonZero(counts: seq<int>): (i: nat)
    ensures i == 0 || (i < |counts| && counts[i] != 0)
    ensures forall j :: i < j < |counts| ==> counts[j] == 0
  {
    if |counts| == 0 then 0
    else if counts[|counts| - 1] != 0 then |counts| - 1
    else LastNonZero(counts[..|counts| - 1])
  }

  lemma {:induction false} LastNonZeroIsLast(counts: seq<int>, cycles: seq<int>)
    requires cycles == NonZeroCycles(counts)
    ensures (if |cycles| == 0 then 0 else cycles[|cycles| - 1]) == LastNonZero(counts)
    decreases |counts|
  {
    if |counts| > 0 && counts[|counts| - 1] == 0 {
      LastNonZeroIsLast(counts[..|counts| - 1], cycles);
    }
  }
}
