/** The argument checks and the per-position inclusion rules of
    `CollectSequencingArtifactMetrics`.

    The interval list and the dbSNP sites are given as optional predicates
    on reference positions; the record filters built in `setup` are listed
    but their meaning belongs to the SAM library and is given as a flag on
    the record. The artifact counter that receives the counted bases is not
    modelled: the model returns the (context, read base) pairs it would be
    handed, in order. */
module ArtifactMetrics {
  import opened Wrappers
  import A = Ascii

  const IntegerMaxValue: int := 0x7fff_ffff

  datatype Options = Options(
    minimumQualityScore: int,
    minimumMappingQuality: int,
    minimumInsertSize: int,
    maximumInsertSize: int,
    includeUnpaired: bool,
    useOriginalQualities: bool,
    contextSize: int)

  /** The declared defaults. */
  const Defaults := Options(20, 30, 60, 600, false, true, 1)

  /** Number of reference bases in a context: the assayed base and
      `contextSize` bases on each side. */
  function ContextFullLength(contextSize: int): int {
    2 * contextSize + 1
  }

  /** One message of `customCommandLineValidation`. */
  datatype Problem =
    | NegativeContextSize
    | ContextWrongLength(context: string, expected: int)
    | NegativeMinimumInsertSize
    | NegativeMaximumInsertSize
    | MaximumBelowMinimum

  /** Decimal rendering of an int, as string concatenation prints it. */
  function IntToString(n: int): string
    decreases if n < 0 then 1 - n else n
  {
    if n < 0 then "-" + IntToString(-n)
    else if n < 10 then [('0' as int + n) as char]
    else IntToString(n / 10) + [('0' as int + n % 10) as char]
  }

  /** The text the tool reports for each problem. */
  function Message(p: Problem): string {
    match p
    case NegativeContextSize => "CONTEXT_SIZE cannot be negative"
    case ContextWrongLength(c, n) => "Context " + c + " is not the length implied by CONTEXT_SIZE: " + IntToString(n)
    case NegativeMinimumInsertSize => "MINIMUM_INSERT_SIZE cannot be negative"
    case NegativeMaximumInsertSize => "MAXIMUM_INSERT_SIZE cannot be negative"
    case MaximumBelowMinimum => "MAXIMUM_INSERT_SIZE cannot be less than MINIMUM_INSERT_SIZE unless set to 0"
  }

  /** One message per context of the wrong length, front to back. */
  function WrongLength(contexts: seq<string>, fullLength: int): seq<Problem> {
    if |contexts| == 0 then []
    else (if |contexts[0]| != fullLength then [ContextWrongLength(contexts[0], fullLength)] else [])
         + WrongLength(contexts[1..], fullLength)
  }

  lemma {:induction false} WrongLengthMembers(contexts: seq<string>, fullLength: int)
    ensures |WrongLength(contexts, fullLength)| <= |contexts|
    ensures forall p :: p in WrongLength(contexts, fullLength) <==>
      exists k :: 0 <= k < |contexts| && |contexts[k]| != fullLength && p == ContextWrongLength(contexts[k], fullLength)
    decreases |contexts|
  {
    if |contexts| > 0 {
      WrongLengthMembers(contexts[1..], fullLength);
      var rest := WrongLength(contexts[1..], fullLength);
      forall p
        ensures p in WrongLength(contexts, fullLength) <==>
          exists k :: 0 <= k < |contexts| && |contexts[k]| != fullLength && p == ContextWrongLength(contexts[k], fullLength)
      {
        if p in rest {
          var k :| 0 <= k < |contexts[1..]| && |contexts[1..][k]| != fullLength
                   && p == ContextWrongLength(contexts[1..][k], fullLength);
          assert contexts[1..][k] == contexts[k + 1];
        }
        if exists k :: 0 <= k < |contexts| && |contexts[k]| != fullLength && p == ContextWrongLength(contexts[k], fullLength) {
          var k :| 0 <= k < |contexts| && |contexts[k]| != fullLength && p == ContextWrongLength(contexts[k], fullLength);
          if k > 0 {
            assert contexts[1..][k - 1] == contexts[k];
          }
        }
      }
    }
  }

  lemma {:induction false} WrongLengthAppend(a: seq<string>, b: seq<string>, fullLength: int)
    ensures WrongLength(a + b, fullLength) == WrongLength(a, fullLength) + WrongLength(b, fullLength)
    decreases |a|
  {
    if |a| == 0 {
      assert a + b == b;
    } else {
      assert (a + b)[0] == a[0];
      assert (a + b)[1..] == a[1..] + b;
      WrongLengthAppend(a[1..], b, fullLength);
    }
  }

  /** One message per context to print whose length is wrong, in the
      order the contexts are visited. */
  function ContextProblems(contexts: seq<string>, fullLength: int): (ps: seq<Problem>)
    ensures |ps| <= |contexts|
    ensures |ps| == 0 <==> forall k :: 0 <= k < |contexts| ==> |contexts[k]| == fullLength
    ensures forall p :: p in ps ==> p.ContextWrongLength?
    ensures forall p :: p in ps <==>
      exists k :: 0 <= k < |contexts| && |contexts[k]| != fullLength && p == ContextWrongLength(contexts[k], fullLength)
  {
    WrongLengthMembers(contexts, fullLength);
    var ps := WrongLength(contexts, fullLength);
    assert |ps| > 0 ==> ps[0] in ps;
    forall k | 0 <= k < |contexts| && |contexts[k]| != fullLength
      ensures ContextWrongLength(contexts[k], fullLength) in ps
    {
    }
    ps
  }

  /** The messages follow the contexts: a list followed by another gives
      the first list's messages followed by the second's, and one context
      gives one message exactly when its length is wrong. */
  lemma ContextProblemsAppend(a: seq<string>, b: seq<string>, fullLength: int)
    ensures ContextProblems(a + b, fullLength) == ContextProblems(a, fullLength) + ContextProblems(b, fullLength)
    ensures |a| == 1 ==>
      ContextProblems(a, fullLength) == if |a[0]| != fullLength then [ContextWrongLength(a[0], fullLength)] else []
  {
    WrongLengthAppend(a, b, fullLength);
    if |a| == 1 {
      assert a[1..] == [];
    }
  }

  /** The problems of the insert-size options, in the order checked. */
  function InsertSizeProblems(opts: Options): (ps: seq<Problem>)
    ensures forall p :: p in ps ==> !p.ContextWrongLength? && !p.NegativeContextSize?
  {
    (if opts.minimumInsertSize < 0 then [NegativeMinimumInsertSize] else [])
    + (if opts.maximumInsertSize < 0 then [NegativeMaximumInsertSize] else [])
    + (if opts.maximumInsertSize > 0 && opts.maximumInsertSize < opts.minimumInsertSize
       then [MaximumBelowMinimum] else [])
  }

  /** Every problem, in the order `customCommandLineValidation` adds them. */
  function Problems(opts: Options, contexts: seq<string>): seq<Problem> {
    (if opts.contextSize < 0 then [NegativeContextSize] else [])
    + ContextProblems(contexts, ContextFullLength(opts.contextSize))
    + InsertSizeProblems(opts)
  }

  /** The arguments `customCommandLineValidation` accepts. */
  ghost predicate Acceptable(opts: Options, contexts: seq<string>) {
    && opts.contextSize >= 0
    && (forall k :: 0 <= k < |contexts| ==> |contexts[k]| == ContextFullLength(opts.contextSize))
    && opts.minimumInsertSize >= 0
    && opts.maximumInsertSize >= 0
    && !(opts.maximumInsertSize > 0 && opts.maximumInsertSize < opts.minimumInsertSize)
  }

  lemma NoProblemsIffAcceptable(opts: Options, contexts: seq<string>)
    ensures |Problems(opts, contexts)| == 0 <==> Acceptable(opts, contexts)
  {
  }

  lemma ProblemsReported(opts: Options, contexts: seq<string>)
    ensures NegativeContextSize in Problems(opts, contexts) <==> opts.contextSize < 0
    ensures NegativeMinimumInsertSize in Problems(opts, contexts) <==> opts.minimumInsertSize < 0
    ensures NegativeMaximumInsertSize in Problems(opts, contexts) <==> opts.maximumInsertSize < 0
    ensures MaximumBelowMinimum in Problems(opts, contexts) <==>
      opts.maximumInsertSize > 0 && opts.maximumInsertSize < opts.minimumInsertSize
  {
    var fullLength := ContextFullLength(opts.contextSize);
    var cps := ContextProblems(contexts, fullLength);
    assert NegativeContextSize !in cps && NegativeMinimumInsertSize !in cps
        && NegativeMaximumInsertSize !in cps && MaximumBelowMinimum !in cps;
  }

  lemma ContextsReported(opts: Options, contexts: seq<string>)
    ensures forall c :: ContextWrongLength(c, ContextFullLength(opts.contextSize)) in Problems(opts, contexts) <==>
      c in contexts && |c| != ContextFullLength(opts.contextSize)
  {
    var fullLength := ContextFullLength(opts.contextSize);
    var cps := ContextProblems(contexts, fullLength);
    forall c
      ensures ContextWrongLength(c, fullLength) in Problems(opts, contexts) <==> c in contexts && |c| != fullLength
    {
      assert ContextWrongLength(c, fullLength) in Problems(opts, contexts) <==> ContextWrongLength(c, fullLength) in cps;
      if c in contexts && |c| != fullLength {
        var k :| 0 <= k < |contexts| && contexts[k] == c;
        assert ContextWrongLength(contexts[k], fullLength) in cps;
      }
    }
  }

  /** `customCommandLineValidation`: no result (null) when every argument
      is acceptable, otherwise the list of problems in the order checked:
      one for a negative context size, one per context to print of the
      wrong length, one per bad insert-size bound. `contexts` is
      `CONTEXTS_TO_PRINT` in its iteration order. */
  function Validate(opts: Options, contexts: seq<string>): (r: Option<seq<Problem>>)
    ensures r.None? <==> Acceptable(opts, contexts)
    ensures r.Some? ==> |r.value| > 0
    ensures r.Some? ==> (NegativeContextSize in r.value <==> opts.contextSize < 0)
    ensures r.Some? ==> (NegativeMinimumInsertSize in r.value <==> opts.minimumInsertSize < 0)
    ensures r.Some? ==> (NegativeMaximumInsertSize in r.value <==> opts.maximumInsertSize < 0)
    ensures r.Some? ==> (MaximumBelowMinimum in r.value <==>
      opts.maximumInsertSize > 0 && opts.maximumInsertSize < opts.minimumInsertSize)
    ensures r.Some? ==> forall c :: ContextWrongLength(c, ContextFullLength(opts.contextSize)) in r.value <==>
      c in contexts && |c| != ContextFullLength(opts.contextSize)
  {
    NoProblemsIffAcceptable(opts, contexts);
    ProblemsReported(opts, contexts);
    ContextsReported(opts, contexts);
    var problems := Problems(opts, contexts);
    if |problems| == 0 then None else Some(problems)
  }

  /** The defaults pass validation when no contexts are given, or when
      every context has three bases. */
  lemma DefaultsAreValid(contexts: seq<string>)
    requires forall k :: 0 <= k < |contexts| ==> |contexts[k]| == 3
    ensures Validate(Defaults, contexts).None?
  {
  }

  /** `MAXIMUM_INSERT_SIZE == 0` means no maximum. */
  function EffectiveMaxInsertSize(maximumInsertSize: int): (m: int)
    ensures maximumInsertSize != 0 ==> m == maximumInsertSize
    ensures maximumInsertSize == 0 ==> m == IntegerMaxValue
  {
    if maximumInsertSize == 0 then IntegerMaxValue else maximumInsertSize
  }

  /** The record filters `setup` installs, in order. */
  datatype RecordFilter =
    | FailsVendorReadQuality
    | NotPrimaryAlignment
    | DuplicateRead
    | Aligned
    | MappingQuality(minimum: int)
    | InsertSize(minimum: int, maximum: int)

  function RecordFilters(opts: Options): (fs: seq<RecordFilter>)
    ensures |fs| == if opts.includeUnpaired then 5 else 6
    ensures fs[..5] == [FailsVendorReadQuality, NotPrimaryAlignment, DuplicateRead, Aligned,
                        MappingQuality(opts.minimumMappingQuality)]
    ensures forall lo, hi :: InsertSize(lo, hi) in fs <==>
      !opts.includeUnpaired && lo == opts.minimumInsertSize && hi == EffectiveMaxInsertSize(opts.maximumInsertSize)
  {
    [FailsVendorReadQuality, NotPrimaryAlignment, DuplicateRead, Aligned,
     MappingQuality(opts.minimumMappingQuality)]
    + if opts.includeUnpaired then []
      else [InsertSize(opts.minimumInsertSize, EffectiveMaxInsertSize(opts.maximumInsertSize))]
  }

  /** The parts of a SAM record the inclusion rules read. */
  datatype Record = Record(
    filteredOut: bool,
    readGroupLibrary: Option<Option<string>>,
    readBases: seq<char>,
    baseQualities: seq<int>,
    originalQualities: Option<seq<int>>,
    blocks: seq<Block>)

  /** An alignment block: 1-based read and reference starts. */
  datatype Block = Block(readStart: int, referenceStart: int, length: nat)

  /** Every read position the blocks touch has a base and a quality. */
  ghost predicate WellFormed(rec: Record) {
    && |rec.baseQualities| == |rec.readBases|
    && (rec.originalQualities.Some? ==> |rec.originalQualities.value| == |rec.readBases|)
    && forall b :: b in rec.blocks ==> 1 <= b.readStart && b.readStart + b.length - 1 <= |rec.readBases|
  }

  /** The quality `failsBaseQualityCutoff` compares: the original quality
      when `USE_OQ` is set and the record has original qualities, else the
      base quality. */
  function QualityAt(useOriginalQualities: bool, rec: Record, readPos: int): int
    requires 1 <= readPos <= |rec.baseQualities|
    requires rec.originalQualities.Some? ==> |rec.originalQualities.value| == |rec.baseQualities|
  {
    if useOriginalQualities && rec.originalQualities.Some?
    then rec.originalQualities.value[readPos - 1]
    else rec.baseQualities[readPos - 1]
  }

  /** `failsBaseQualityCutoff(readPos, rec)`. */
  predicate FailsBaseQualityCutoff(opts: Options, rec: Record, readPos: int)
    requires 1 <= readPos <= |rec.baseQualities|
    requires rec.originalQualities.Some? ==> |rec.originalQualities.value| == |rec.baseQualities|
  {
    QualityAt(opts.useOriginalQualities, rec, readPos) < opts.minimumQualityScore
  }

  /** Which qualities decide: with `USE_OQ` off, or with no original
      qualities, only the base qualities matter; with `USE_OQ` on and
      original qualities present, only the original ones. */
  lemma QualitySource(opts: Options, rec: Record, other: Record, readPos: int)
    requires 1 <= readPos <= |rec.baseQualities| && |other.baseQualities| == |rec.baseQualities|
    requires rec.originalQualities.Some? ==> |rec.originalQualities.value| == |rec.baseQualities|
    requires other.originalQualities.Some? ==> |other.originalQualities.value| == |other.baseQualities|
    ensures (!opts.useOriginalQualities || (rec.originalQualities.None? && other.originalQualities.None?))
            && rec.baseQualities[readPos - 1] == other.baseQualities[readPos - 1] ==>
      (FailsBaseQualityCutoff(opts, rec, readPos) <==> FailsBaseQualityCutoff(opts, other, readPos))
    ensures opts.useOriginalQualities && rec.originalQualities.Some? && other.originalQualities.Some?
            && rec.originalQualities.value[readPos - 1] == other.originalQualities.value[readPos - 1] ==>
      (FailsBaseQualityCutoff(opts, rec, readPos) <==> FailsBaseQualityCutoff(opts, other, readPos))
    ensures FailsBaseQualityCutoff(opts, rec, readPos) <==>
      (if opts.useOriginalQualities && rec.originalQualities.Some?
       then rec.originalQualities.value[readPos - 1] else rec.baseQualities[readPos - 1]) < opts.minimumQualityScore
  {
  }

  /** A counted base: the upper-cased reference context around it and the
      upper-cased read base. */
  datatype Counted = Counted(context: string, readBase: char)

  /** The optional masks: a position is inside the intervals when the
      interval predicate holds, and a dbSNP site when the dbSNP one does. */
  datatype Masks = Masks(intervals: Option<int -> bool>, dbSnp: Option<int -> bool>)

  predicate Masked(masks: Masks, refPos: int) {
    || (masks.intervals.Some? && !masks.intervals.value(refPos))
    || (masks.dbSnp.Some? && masks.dbSnp.value(refPos))
  }

  /** The context window of reference position `refPos` (1-based) lies
      inside the reference. */
  predicate ContextInside(contextSize: nat, reference: seq<char>, refPos: int) {
    var start := refPos - contextSize - 1;
    0 <= start && start + ContextFullLength(contextSize) <= |reference|
  }

  function Context(contextSize: nat, reference: seq<char>, refPos: int): (c: string)
    requires ContextInside(contextSize, reference, refPos)
    ensures |c| == ContextFullLength(contextSize)
    ensures c[contextSize] == A.UpperCase(reference[refPos - 1])
  {
    var start := refPos - contextSize - 1;
    A.Upper(reference[start..start + ContextFullLength(contextSize)])
  }

  /** The checks of one aligned position, in the source's order: masks,
      reference ends, N in the context, base quality, N read base. */
  function Position(opts: Options, masks: Masks, reference: seq<char>, rec: Record, readPos: int, refPos: int)
    : (r: Option<Counted>)
    requires opts.contextSize >= 0 && WellFormed(rec) && 1 <= readPos <= |rec.readBases|
    ensures r.Some? <==>
      && !Masked(masks, refPos)
      && ContextInside(opts.contextSize, reference, refPos)
      && 'N' !in Context(opts.contextSize, reference, refPos)
      && QualityAt(opts.useOriginalQualities, rec, readPos) >= opts.minimumQualityScore
      && A.UpperCase(rec.readBases[readPos - 1]) != 'N'
    ensures r.Some? ==>
      && |r.value.context| == ContextFullLength(opts.contextSize)
      && r.value.context[opts.contextSize] == A.UpperCase(reference[refPos - 1])
      && (forall k :: 0 <= k < |r.value.context| ==> r.value.context[k] != 'N')
      && r.value.readBase == A.UpperCase(rec.readBases[readPos - 1])
      && r.value.readBase != 'N'
  {
    if Masked(masks, refPos) then None
    else if !ContextInside(opts.contextSize, reference, refPos) then None
    else
      var context := Context(opts.contextSize, reference, refPos);
      if 'N' in context then None
      else if FailsBaseQualityCutoff(opts, rec, readPos) then None
      else
        var readBase := A.UpperCase(rec.readBases[readPos - 1]);
        if readBase == 'N' then None
        else Some(Counted(context, readBase))
  }

  /** The values of the entries that are present, in order. */
  function Present<T>(os: seq<Option<T>>): seq<T> {
    if |os| == 0 then []
    else (match os[0] case None => [] case Some(v) => [v]) + Present(os[1..])
  }

  lemma {:induction false} PresentAppend<T>(a: seq<Option<T>>, b: seq<Option<T>>)
    ensures Present(a + b) == Present(a) + Present(b)
    decreases |a|
  {
    if |a| == 0 {
      assert a + b == b;
    } else {
      assert (a + b)[0] == a[0];
      assert (a + b)[1..] == a[1..] + b;
      PresentAppend(a[1..], b);
    }
  }

  lemma PresentSnoc<T>(os: seq<Option<T>>, n: nat)
    requires 0 < n <= |os|
    ensures Present(os[..n]) ==
      Present(os[..n - 1]) + match os[n - 1] case None => [] case Some(v) => [v]
  {
    assert os[..n] == os[..n - 1] + [os[n - 1]];
    PresentAppend(os[..n - 1], [os[n - 1]]);
  }

  lemma {:induction false} PresentMember<T>(os: seq<Option<T>>, v: T)
    ensures v in Present(os) <==> Some(v) in os
    decreases |os|
  {
    if |os| > 0 {
      PresentMember(os[1..], v);
      assert os == [os[0]] + os[1..];
    }
  }

  /** The aligned position `off` bases into `block`. */
  function PositionAt(opts: Options, masks: Masks, reference: seq<char>, rec: Record, block: Block, off: nat)
    : Option<Counted>
    requires opts.contextSize >= 0 && WellFormed(rec) && block in rec.blocks && off < block.length
  {
    Position(opts, masks, reference, rec, block.readStart + off, block.referenceStart + off)
  }

  /** What each aligned position of `block` yields, offset by offset. */
  function BlockPositions(opts: Options, masks: Masks, reference: seq<char>, rec: Record, block: Block)
    : (ps: seq<Option<Counted>>)
    requires opts.contextSize >= 0 && WellFormed(rec) && block in rec.blocks
    ensures |ps| == block.length
  {
    seq(block.length, off requires 0 <= off < block.length => PositionAt(opts, masks, reference, rec, block, off))
  }

  /** What the aligned positions of the first n blocks yield, block by block. */
  function AlignedPositions(opts: Options, masks: Masks, reference: seq<char>, rec: Record, n: nat)
    : seq<Option<Counted>>
    requires opts.contextSize >= 0 && WellFormed(rec) && n <= |rec.blocks|
  {
    if n == 0 then []
    else AlignedPositions(opts, masks, reference, rec, n - 1)
         + BlockPositions(opts, masks, reference, rec, rec.blocks[n - 1])
  }

  /** The positions counted in one block, offset by offset: exactly those
      among the first `done` offsets whose checks pass, in offset order. */
  function BlockCounts(opts: Options, masks: Masks, reference: seq<char>, rec: Record, block: Block, done: nat)
    : (cs: seq<Counted>)
    requires opts.contextSize >= 0 && WellFormed(rec) && block in rec.blocks && done <= block.length
    ensures |cs| <= done
    ensures forall c :: c in cs ==> |c.context| == ContextFullLength(opts.contextSize) && c.readBase != 'N'
    ensures cs == Present(BlockPositions(opts, masks, reference, rec, block)[..done])
    decreases done
  {
    if done == 0 then []
    else
      var offset := done - 1;
      var earlier := BlockCounts(opts, masks, reference, rec, block, offset);
      var here := PositionAt(opts, masks, reference, rec, block, offset);
      PresentSnoc(BlockPositions(opts, masks, reference, rec, block), done);
      match here
      case None => earlier
      case Some(c) => earlier + [c]
  }

  /** The positions counted in the first n blocks, block by block. */
  function BlocksCounts(opts: Options, masks: Masks, reference: seq<char>, rec: Record, n: nat)
    : (cs: seq<Counted>)
    requires opts.contextSize >= 0 && WellFormed(rec) && n <= |rec.blocks|
    ensures forall c :: c in cs ==> |c.context| == ContextFullLength(opts.contextSize) && c.readBase != 'N'
    ensures cs == Present(AlignedPositions(opts, masks, reference, rec, n))
  {
    if n == 0 then []
    else
      var block := rec.blocks[n - 1];
      var ps := BlockPositions(opts, masks, reference, rec, block);
      assert ps[..block.length] == ps;
      PresentAppend(AlignedPositions(opts, masks, reference, rec, n - 1), ps);
      BlocksCounts(opts, masks, reference, rec, n - 1)
      + BlockCounts(opts, masks, reference, rec, block, block.length)
  }

  /** A base is yielded by the first n blocks exactly when some offset of
      one of them yields it. */
  lemma {:induction false} AlignedMember(opts: Options, masks: Masks, reference: seq<char>, rec: Record, n: nat,
                                         c: Counted)
    requires opts.contextSize >= 0 && WellFormed(rec) && n <= |rec.blocks|
    ensures Some(c) in AlignedPositions(opts, masks, reference, rec, n) <==>
      exists k, off :: 0 <= k < n && 0 <= off < rec.blocks[k].length &&
        BlockPositions(opts, masks, reference, rec, rec.blocks[k])[off] == Some(c)
  {
    if n > 0 {
      AlignedMember(opts, masks, reference, rec, n - 1, c);
      var prev := AlignedPositions(opts, masks, reference, rec, n - 1);
      var ps := BlockPositions(opts, masks, reference, rec, rec.blocks[n - 1]);
      assert Some(c) in prev + ps <==> Some(c) in prev || Some(c) in ps;
      if Some(c) in ps {
        var off :| 0 <= off < |ps| && ps[off] == Some(c);
        assert 0 <= n - 1 < n && 0 <= off < rec.blocks[n - 1].length;
      }
    }
  }

  /** Number of positions the blocks cover. */
  function Covered(blocks: seq<Block>): nat {
    if |blocks| == 0 then 0 else Covered(blocks[..|blocks| - 1]) + blocks[|blocks| - 1].length
  }

  /** The library a record is counted under: its read group's library,
      `UnknownLibrary` when the record has no read group or the group has
      no library. */
  const UnknownLibrary := "UnknownLibrary"

  function LibraryOf(rec: Record): string {
    match rec.readGroupLibrary
    case None => UnknownLibrary
    case Some(None) => UnknownLibrary
    case Some(Some(name)) => name
  }

  /** The libraries `setup` collects from the header's read groups. */
  function HeaderLibraries(readGroupLibraries: seq<Option<string>>): (libs: set<string>)
    ensures forall k :: 0 <= k < |readGroupLibraries| && readGroupLibraries[k].None? ==> UnknownLibrary in libs
    ensures forall k :: 0 <= k < |readGroupLibraries| && readGroupLibraries[k].Some? ==>
      readGroupLibraries[k].value in libs
    ensures forall name :: name in libs ==>
      name == UnknownLibrary || Some(name) in readGroupLibraries
  {
    set k | 0 <= k < |readGroupLibraries| ::
      if readGroupLibraries[k].Some? then readGroupLibraries[k].value else UnknownLibrary
  }

  datatype AcceptError = LibraryMissingFromHeader(library: string)

  /** `acceptRead`: a filtered-out record counts nothing; a record whose
      library the header does not declare is an error; otherwise every
      aligned position that passes the checks is counted once, block by
      block, in order. */
  function AcceptRead(opts: Options, masks: Masks, reference: seq<char>, libraries: set<string>, rec: Record)
    : (r: Result<(string, seq<Counted>), AcceptError>)
    requires opts.contextSize >= 0 && WellFormed(rec)
    ensures rec.filteredOut ==> r.Success? && r.value.1 == []
    ensures !rec.filteredOut && LibraryOf(rec) !in libraries <==> r.Failure?
    ensures r.Failure? ==> r.error == LibraryMissingFromHeader(LibraryOf(rec))
    ensures r.Success? ==> |r.value.1| <= Covered(rec.blocks)
    ensures r.Success? && !rec.filteredOut ==> r.value.0 == LibraryOf(rec) && r.value.0 in libraries
    ensures r.Success? && !rec.filteredOut ==>
      r.value.1 == Present(AlignedPositions(opts, masks, reference, rec, |rec.blocks|))
  {
    if rec.filteredOut then Success((LibraryOf(rec), []))
    else if LibraryOf(rec) !in libraries then Failure(LibraryMissingFromHeader(LibraryOf(rec)))
    else
      var counted := BlocksCounts(opts, masks, reference, rec, |rec.blocks|);
      CountedBound(opts, masks, reference, rec, |rec.blocks|);
      assert rec.blocks[..|rec.blocks|] == rec.blocks;
      Success((LibraryOf(rec), counted))
  }

  lemma {:induction false} CountedBound(opts: Options, masks: Masks, reference: seq<char>, rec: Record, n: nat)
    requires opts.contextSize >= 0 && WellFormed(rec) && n <= |rec.blocks|
    ensures |BlocksCounts(opts, masks, reference, rec, n)| <= Covered(rec.blocks[..n])
  {
    if n > 0 {
      CountedBound(opts, masks, reference, rec, n - 1);
      assert rec.blocks[..n][..n - 1] == rec.blocks[..n - 1];
    }
  }

  /** A position with no masks, an inside context of A/C/G/T, a good
      quality and a called read base is always counted. */
  lemma CleanPositionCounted(opts: Options, reference: seq<char>, rec: Record, readPos: int, refPos: int)
    requires opts.contextSize >= 0 && WellFormed(rec) && 1 <= readPos <= |rec.readBases|
    requires ContextInside(opts.contextSize, reference, refPos)
    requires forall k :: 0 <= k < |reference| ==> reference[k] in "ACGT"
    requires QualityAt(opts.useOriginalQualities, rec, readPos) >= opts.minimumQualityScore
    requires rec.readBases[readPos - 1] in "ACGT"
    ensures Position(opts, Masks(None, None), reference, rec, readPos, refPos).Some?
  {
    var context := Context(opts.contextSize, reference, refPos);
    var start := refPos - opts.contextSize - 1;
    forall k | 0 <= k < |context|
      ensures context[k] != 'N'
    {
      assert reference[start + k] in "ACGT";
    }
  }

  /** `acceptRead` counts a base exactly when some offset of some alignment
      block yields it. */
  lemma CountedIffYielded(opts: Options, masks: Masks, reference: seq<char>, libraries: set<string>,
                          rec: Record, c: Counted)
    requires opts.contextSize >= 0 && WellFormed(rec)
    requires !rec.filteredOut && LibraryOf(rec) in libraries
    ensures AcceptRead(opts, masks, reference, libraries, rec).Success?
    ensures c in AcceptRead(opts, masks, reference, libraries, rec).value.1 <==>
      exists k, off :: 0 <= k < |rec.blocks| && 0 <= off < rec.blocks[k].length &&
        PositionAt(opts, masks, reference, rec, rec.blocks[k], off) == Some(c)
  {
    PresentMember(AlignedPositions(opts, masks, reference, rec, |rec.blocks|), c);
    AlignedMember(opts, masks, reference, rec, |rec.blocks|, c);
    forall k, off | 0 <= k < |rec.blocks| && 0 <= off < rec.blocks[k].length
      ensures BlockPositions(opts, masks, reference, rec, rec.blocks[k])[off]
              == PositionAt(opts, masks, reference, rec, rec.blocks[k], off)
    {
    }
  }

  /** An unmasked position of an alignment block whose context lies inside
      an A/C/G/T reference, with a good quality and a called read base, is
      counted by `acceptRead`. */
  lemma CleanAlignedPositionCounted(opts: Options, reference: seq<char>, libraries: set<string>,
                                    rec: Record, k: nat, off: nat)
    requires opts.contextSize >= 0 && WellFormed(rec)
    requires !rec.filteredOut && LibraryOf(rec) in libraries
    requires k < |rec.blocks| && off < rec.blocks[k].length
    requires ContextInside(opts.contextSize, reference, rec.blocks[k].referenceStart + off)
    requires forall i :: 0 <= i < |reference| ==> reference[i] in "ACGT"
    requires QualityAt(opts.useOriginalQualities, rec, rec.blocks[k].readStart + off) >= opts.minimumQualityScore
    requires rec.readBases[rec.blocks[k].readStart + off - 1] in "ACGT"
    ensures var counted := AcceptRead(opts, Masks(None, None), reference, libraries, rec);
      && counted.Success?
      && PositionAt(opts, Masks(None, None), reference, rec, rec.blocks[k], off).Some?
      && PositionAt(opts, Masks(None, None), reference, rec, rec.blocks[k], off).value in counted.value.1
  {
    var block := rec.blocks[k];
    CleanPositionCounted(opts, reference, rec, block.readStart + off, block.referenceStart + off);
    var c := PositionAt(opts, Masks(None, None), reference, rec, block, off).value;
    CountedIffYielded(opts, Masks(None, None), reference, libraries, rec, c);
  }

  /** `CONTEXTS_TO_PRINT` narrows only the detail metrics: a detail row is
      kept when the set is empty or names its context. */
  predicate KeepDetail(contextsToPrint: set<string>, context: string) {
    |contextsToPrint| == 0 || context in contextsToPrint
  }

  /** The detail rows kept, front to back. */
  function Kept(contextsToPrint: set<string>, contexts: seq<string>): seq<string> {
    if |contexts| == 0 then []
    else (if KeepDetail(contextsToPrint, contexts[0]) then [contexts[0]] else [])
         + Kept(contextsToPrint, contexts[1..])
  }

  lemma {:induction false} KeptCounts(contextsToPrint: set<string>, contexts: seq<string>)
    ensures |Kept(contextsToPrint, contexts)| <= |contexts|
    ensures forall c ::
      multiset(Kept(contextsToPrint, contexts))[c] ==
      (if KeepDetail(contextsToPrint, c) then multiset(contexts)[c] else 0)
    ensures |contextsToPrint| == 0 ==> Kept(contextsToPrint, contexts) == contexts
    decreases |contexts|
  {
    if |contexts| > 0 {
      KeptCounts(contextsToPrint, contexts[1..]);
      KeptStep(contextsToPrint, contexts);
    }
  }

  lemma KeptStep(contextsToPrint: set<string>, contexts: seq<string>)
    requires |contexts| > 0
    requires forall c ::
      multiset(Kept(contextsToPrint, contexts[1..]))[c] ==
      (if KeepDetail(contextsToPrint, c) then multiset(contexts[1..])[c] else 0)
    ensures forall c ::
      multiset(Kept(contextsToPrint, contexts))[c] ==
      (if KeepDetail(contextsToPrint, c) then multiset(contexts)[c] else 0)
  {
    var x := contexts[0];
    var head := if KeepDetail(contextsToPrint, x) then [x] else [];
    var rest := Kept(contextsToPrint, contexts[1..]);
    assert Kept(contextsToPrint, contexts) == head + rest;
    assert contexts == [x] + contexts[1..];
    assert multiset(contexts) == multiset{x} + multiset(contexts[1..]);
    assert multiset(head + rest) == multiset(head) + multiset(rest);
  }

  lemma {:induction false} KeptAppend(contextsToPrint: set<string>, a: seq<string>, b: seq<string>)
    ensures Kept(contextsToPrint, a + b) == Kept(contextsToPrint, a) + Kept(contextsToPrint, b)
    decreases |a|
  {
    if |a| == 0 {
      assert a + b == b;
    } else {
      assert (a + b)[0] == a[0];
      assert (a + b)[1..] == a[1..] + b;
      KeptAppend(contextsToPrint, a[1..], b);
    }
  }

  /** The detail rows written: every row whose context is kept, as often
      as it occurs, and no other. */
  function SelectDetails(contextsToPrint: set<string>, contexts: seq<string>): (kept: seq<string>)
    ensures |kept| <= |contexts|
    ensures forall c :: c in kept <==> c in contexts && KeepDetail(contextsToPrint, c)
    ensures forall c :: multiset(kept)[c] == if KeepDetail(contextsToPrint, c) then multiset(contexts)[c] else 0
    ensures |contextsToPrint| == 0 ==> kept == contexts
  {
    KeptCounts(contextsToPrint, contexts);
    var kept := Kept(contextsToPrint, contexts);
    assert forall c :: (c in kept <==> multiset(kept)[c] > 0);
    assert forall c :: (c in contexts <==> multiset(contexts)[c] > 0);
    kept
  }

  /** Selection keeps input order: selecting from two lists one after the
      other gives the two selections one after the other. */
  lemma SelectDetailsAppend(contextsToPrint: set<string>, a: seq<string>, b: seq<string>)
    ensures SelectDetails(contextsToPrint, a + b) ==
      SelectDetails(contextsToPrint, a) + SelectDetails(contextsToPrint, b)
  {
    KeptAppend(contextsToPrint, a, b);
  }
}
