/** The sliding-window GC calculation of `CollectGcBiasMetrics`
    (`calculateGc` with its `CalculateGcState`, and `calculateAllGcs`).

    Reference bases are bytes; the model writes them as chars. The window
    size is a plain positive parameter (the source's field is fixed at 100). */
module GcBias {
  import A = Ascii

  /** Histogram slots 0..100. */
  const Windows: nat := 101

  /** The state carried from one window to the next. */
  datatype GcState = GcState(init: bool, nCount: int, gcCount: int, priorBase: char)

  const InitialState := GcState(true, 0, 0, 0 as char)

  /** Only upper-case G and C count as GC, only upper-case N as a no-call. */
  predicate IsGc(b: char) {
    b == 'G' || b == 'C'
  }

  predicate IsNoCall(b: char) {
    b == 'N'
  }

  function GcDelta(b: char): int {
    if IsGc(b) then 1 else 0
  }

  function NoCallDelta(b: char): int {
    if IsGc(b) then 0 else if IsNoCall(b) then 1 else 0
  }

  /** Direct recount: G/C bases in `bases[start..end)`. */
  function CountGc(bases: seq<char>, start: nat, end: nat): nat
    requires start <= end <= |bases|
    decreases end - start
  {
    if start == end then 0 else CountGc(bases, start, end - 1) + GcDelta(bases[end - 1])
  }

  /** Direct recount: N bases in `bases[start..end)`. */
  function CountNoCalls(bases: seq<char>, start: nat, end: nat): nat
    requires start <= end <= |bases|
    decreases end - start
  {
    if start == end then 0 else CountNoCalls(bases, start, end - 1) + NoCallDelta(bases[end - 1])
  }

  lemma {:induction false} CountsBelow(bases: seq<char>, start: nat, end: nat)
    requires 0 < start <= end <= |bases|
    ensures CountGc(bases, start - 1, end) == GcDelta(bases[start - 1]) + CountGc(bases, start, end)
    ensures CountNoCalls(bases, start - 1, end) == NoCallDelta(bases[start - 1]) + CountNoCalls(bases, start, end)
    decreases end - start
  {
    if start < end {
      CountsBelow(bases, start, end - 1);
    }
  }

  lemma {:induction false} CountsBounded(bases: seq<char>, start: nat, end: nat)
    requires start <= end <= |bases|
    ensures CountGc(bases, start, end) <= end - start
    decreases end - start
  {
    if start < end {
      CountsBounded(bases, start, end - 1);
    }
  }

  /** The GC of a window from a direct recount: -1 when it holds more than
      four no-calls, else the integer percentage of G/C bases. */
  function WindowGc(bases: seq<char>, start: nat, end: nat): int
    requires start < end <= |bases|
  {
    if CountNoCalls(bases, start, end) > 4 then -1
    else (CountGc(bases, start, end) * 100) / (end - start)
  }

  lemma WindowGcRange(bases: seq<char>, start: nat, end: nat)
    requires start < end <= |bases|
    ensures WindowGc(bases, start, end) == -1 || 0 <= WindowGc(bases, start, end) <= 100
    ensures WindowGc(bases, start, end) == -1 <==> CountNoCalls(bases, start, end) > 4
  {
    CountsBounded(bases, start, end);
    PercentBound(CountGc(bases, start, end), end - start);
  }

  lemma PercentBound(part: nat, whole: nat)
    requires 0 < whole && part <= whole
    ensures 0 <= (part * 100) / whole <= 100
  {
    assert part * 100 <= whole * 100;
    assert (whole * 100) / whole == 100;
  }

  /** The state agrees with a direct recount of `bases[start..end)`. */
  ghost predicate Tracks(state: GcState, bases: seq<char>, start: nat, end: nat) {
    && start < end <= |bases|
    && !state.init
    && state.gcCount == CountGc(bases, start, end)
    && state.nCount == CountNoCalls(bases, start, end)
    && state.priorBase == bases[start]
  }

  /** `calculateGc(bases, startIndex, endIndex, state)`: on the first call
      it counts the window; afterwards it adds the entering base and removes
      the base that left. When successive windows shift by exactly one, the
      incremental counts equal a direct recount. */
  function CalculateGc(bases: seq<char>, start: nat, end: nat, state: GcState): (r: (int, GcState))
    requires start < end <= |bases|
    requires !state.init ==> 0 < start && Tracks(state, bases, start - 1, end - 1)
    ensures Tracks(r.1, bases, start, end)
    ensures r.0 == WindowGc(bases, start, end)
  {
    var counted :=
      if state.init then
        GcState(false, CountNoCalls(bases, start, end), CountGc(bases, start, end), state.priorBase)
      else Shifted(bases, start, end, state);
    var next := counted.(priorBase := bases[start]);
    if next.nCount > 4 then (-1, next)
    else ((next.gcCount * 100) / (end - start), next)
  }

  /** The incremental step: count the base entering at `end - 1`, uncount
      the base that left at `start - 1`. */
  function Shifted(bases: seq<char>, start: nat, end: nat, state: GcState): (r: GcState)
    requires 0 < start < end <= |bases|
    requires Tracks(state, bases, start - 1, end - 1)
    ensures !r.init
    ensures r.gcCount == CountGc(bases, start, end) && r.nCount == CountNoCalls(bases, start, end)
  {
    CountsBelow(bases, start, end - 1);
    var newBase := bases[end - 1];
    GcState(false,
            state.nCount + NoCallDelta(newBase) - NoCallDelta(state.priorBase),
            state.gcCount + GcDelta(newBase) - GcDelta(state.priorBase),
            state.priorBase)
  }

  /** Number of windows i in [lo, hi) whose GC is g. */
  function WindowsWithGc(bases: seq<char>, windowSize: nat, g: int, lo: nat, hi: nat): nat
    requires windowSize > 0 && lo <= hi && hi + windowSize <= |bases|
    decreases hi - lo
  {
    if lo == hi then 0
    else WindowsWithGc(bases, windowSize, g, lo, hi - 1)
         + (if WindowGc(bases, hi - 1, hi - 1 + windowSize) == g then 1 else 0)
  }

  /** The windows `calculateAllGcs` visits start at 1 and stop before
      refLength - windowSize (a window starting at 0 is never counted). */
  function LastWindowStart(bases: seq<char>, windowSize: nat): int {
    |bases| - windowSize
  }

  /** Windows of GC g among those visited. */
  function VisitedWithGc(bases: seq<char>, windowSize: nat, g: int): nat
    requires windowSize > 0
  {
    var last := LastWindowStart(bases, windowSize);
    if last <= 1 then 0 else WindowsWithGc(bases, windowSize, g, 1, last)
  }

  /** The GC array of one reference from direct recounts: window i's GC at
      every visited start i, 0 elsewhere, refLength + 1 entries. */
  function GcArray(bases: seq<char>, windowSize: nat): (gc: seq<int>)
    requires windowSize > 0
    ensures |gc| == |bases| + 1
  {
    seq(|bases| + 1, i requires 0 <= i <= |bases| =>
      if 1 <= i < LastWindowStart(bases, windowSize) then WindowGc(bases, i, i + windowSize) else 0)
  }

  /** `calculateAllGcs(refBases, windowsByGc, refLength - windowSize)`: the
      GC of every visited window, stored at index i of an array of
      refLength + 1 entries that is 0 elsewhere; each visited window other
      than -1 adds 1 to the histogram slot of its GC. */
  method CalculateAllGcs(refBases: seq<char>, windowsByGc: seq<int>, windowSize: nat)
    returns (gc: seq<int>, histogram: seq<int>)
    requires windowSize > 0 && |windowsByGc| == Windows
    ensures |gc| == |refBases| + 1 && |histogram| == Windows
    ensures forall i :: 1 <= i < LastWindowStart(refBases, windowSize) ==>
      gc[i] == WindowGc(refBases, i, i + windowSize) && -1 <= gc[i] <= 100
    ensures forall i :: 0 <= i <= |refBases| && !(1 <= i < LastWindowStart(refBases, windowSize)) ==> gc[i] == 0
    ensures forall g :: 0 <= g < Windows ==>
      histogram[g] == windowsByGc[g] + VisitedWithGc(refBases, windowSize, g)
    ensures gc == GcArray(refBases, windowSize)
  {
    var lastWindowStart := LastWindowStart(refBases, windowSize);
    var state := InitialState;
    gc := seq(|refBases| + 1, _ => 0);
    histogram := windowsByGc;
    var i := 1;
    while i < lastWindowStart
      invariant 1 <= i <= if lastWindowStart > 1 then lastWindowStart else 1
      invariant |gc| == |refBases| + 1 && |histogram| == Windows
      invariant i == 1 ==> state.init
      invariant i > 1 ==> Tracks(state, refBases, i - 1, i - 1 + windowSize)
      invariant forall k :: 1 <= k < i ==> gc[k] == WindowGc(refBases, k, k + windowSize) && -1 <= gc[k] <= 100
      invariant forall k :: 0 <= k <= |refBases| && !(1 <= k < i) ==> gc[k] == 0
      invariant lastWindowStart <= 1 ==> histogram == windowsByGc
      invariant lastWindowStart > 1 ==> forall g :: 0 <= g < Windows ==>
        histogram[g] == windowsByGc[g] + WindowsWithGc(refBases, windowSize, g, 1, i)
    {
      var windowEnd := i + windowSize;
      var step := CalculateGc(refBases, i, windowEnd, state);
      var windowGc := step.0;
      state := step.1;
      WindowGcRange(refBases, i, windowEnd);
      gc := gc[i := windowGc];
      if windowGc != -1 {
        histogram := histogram[windowGc := histogram[windowGc] + 1];
      }
      i := i + 1;
    }
    assert forall k :: 0 <= k < |gc| ==> gc[k] == GcArray(refBases, windowSize)[k];
  }

  /** `StringUtil.toUpperCase` makes soft-masked g, c and n count too. */
  lemma UpperCaseCountsSoftMasked(c: char)
    ensures IsGc(A.UpperCase(c)) <==> c in "GCgc"
    ensures IsNoCall(A.UpperCase(c)) <==> c in "Nn"
  {
    A.UpperCaseLetters(c);
  }

  datatype Reference = Reference(name: string, bases: seq<char>)

  /** Windows of GC g visited over all references, after upper-casing. */
  function TotalWithGc(refs: seq<Reference>, windowSize: nat, g: int): nat
    requires windowSize > 0
  {
    if |refs| == 0 then 0
    else TotalWithGc(refs[..|refs| - 1], windowSize, g)
         + VisitedWithGc(A.Upper(refs[|refs| - 1].bases), windowSize, g)
  }

  /** The reference loop of `setup`: every reference is upper-cased and its
      GC array stored under its name (a later reference of the same name
      replaces an earlier one), while one histogram accumulates the windows
      of all references. */
  method GcByReference(refs: seq<Reference>, windowSize: nat)
    returns (gcByRef: map<string, seq<int>>, windowsByGc: seq<int>)
    requires windowSize > 0
    ensures gcByRef.Keys == set r | r in refs :: r.name
    ensures forall k :: 0 <= k < |refs| && LastOfName(refs, k, |refs|) ==>
      gcByRef[refs[k].name] == GcArray(A.Upper(refs[k].bases), windowSize)
    ensures |windowsByGc| == Windows
    ensures forall g :: 0 <= g < Windows ==> windowsByGc[g] == TotalWithGc(refs, windowSize, g)
  {
    gcByRef := map[];
    windowsByGc := seq(Windows, _ => 0);
    for k := 0 to |refs|
      invariant Stored(refs, k, windowSize, gcByRef)
      invariant Accumulated(refs, k, windowSize, windowsByGc)
    {
      var gc, next := CalculateAllGcs(A.Upper(refs[k].bases), windowsByGc, windowSize);
      StoredStep(refs, k, windowSize, gcByRef, gc);
      AccumulatedStep(refs, k, windowSize, windowsByGc, next);
      gcByRef, windowsByGc := gcByRef[refs[k].name := gc], next;
    }
    assert refs[..|refs|] == refs;
  }

  /** The map after the first k references: one key per name, holding the
      array of the last reference of that name. */
  ghost predicate Stored(refs: seq<Reference>, k: nat, windowSize: nat, gcByRef: map<string, seq<int>>)
    requires k <= |refs| && windowSize > 0
  {
    && gcByRef.Keys == (set r | r in refs[..k] :: r.name)
    && forall i :: 0 <= i < k && LastOfName(refs, i, k) ==>
         gcByRef[refs[i].name] == GcArray(A.Upper(refs[i].bases), windowSize)
  }

  /** The histogram after the first k references. */
  ghost predicate Accumulated(refs: seq<Reference>, k: nat, windowSize: nat, windowsByGc: seq<int>)
    requires k <= |refs| && windowSize > 0
  {
    && |windowsByGc| == Windows
    && forall g :: 0 <= g < Windows ==> windowsByGc[g] == TotalWithGc(refs[..k], windowSize, g)
  }

  lemma StoredStep(refs: seq<Reference>, k: nat, windowSize: nat, gcByRef: map<string, seq<int>>, gc: seq<int>)
    requires k < |refs| && windowSize > 0 && Stored(refs, k, windowSize, gcByRef)
    requires gc == GcArray(A.Upper(refs[k].bases), windowSize)
    ensures Stored(refs, k + 1, windowSize, gcByRef[refs[k].name := gc])
  {
    var updated := gcByRef[refs[k].name := gc];
    NamesStep(refs, k);
    forall i | 0 <= i < k + 1 && LastOfName(refs, i, k + 1)
      ensures updated[refs[i].name] == GcArray(A.Upper(refs[i].bases), windowSize)
    {
      if i < k {
        LastOfNameStep(refs, i, k);
      }
    }
  }

  lemma AccumulatedStep(refs: seq<Reference>, k: nat, windowSize: nat, windowsByGc: seq<int>, next: seq<int>)
    requires k < |refs| && windowSize > 0 && Accumulated(refs, k, windowSize, windowsByGc)
    requires |next| == Windows
    requires forall g :: 0 <= g < Windows ==>
      next[g] == windowsByGc[g] + VisitedWithGc(A.Upper(refs[k].bases), windowSize, g)
    ensures Accumulated(refs, k + 1, windowSize, next)
  {
    assert refs[..k + 1][..k] == refs[..k];
  }

  lemma NamesStep(refs: seq<Reference>, k: nat)
    requires k < |refs|
    ensures (set r | r in refs[..k + 1] :: r.name) == (set r | r in refs[..k] :: r.name) + {refs[k].name}
  {
    assert refs[..k + 1] == refs[..k] + [refs[k]];
  }

  lemma LastOfNameStep(refs: seq<Reference>, i: nat, k: nat)
    requires i < k < |refs| && LastOfName(refs, i, k + 1)
    ensures LastOfName(refs, i, k) && refs[k].name != refs[i].name
  {
  }

  /** No reference after index k, before index hi, has the same name. */
  ghost predicate LastOfName(refs: seq<Reference>, k: nat, hi: nat)
    requires k < hi <= |refs|
  {
    forall j :: k < j < hi ==> refs[j].name != refs[k].name
  }
}
