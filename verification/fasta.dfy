/** The FASTA writers of `NormalizeFasta` and `ExtractSequences`: a header
    line, then the bases with a line break before every base whose index
    is a positive multiple of `LINE_LENGTH`.

    The output is modelled as the characters written; `newLine()` is taken
    to write "\n". Reverse complementing is a function supplied by the
    caller. */
module Fasta {
  import opened Wrappers

  /** Java's `i % n` throws for n == 0. */
  datatype FormatError = DivisionByZero

  function Abs(n: int): nat {
    if n < 0 then -n else n
  }

  /** Java's `i % n` for i >= 0 and n != 0: the sign follows i, so it is
      i modulo |n|. */
  function JavaRem(i: nat, n: int): nat
    requires n != 0
  {
    i % Abs(n)
  }

  /** The break written before base i: one "\n" when i > 0 and
      `i % LINE_LENGTH == 0`. */
  function BreakBefore(i: nat, lineLength: int): string
    requires lineLength != 0
  {
    if i > 0 && JavaRem(i, lineLength) == 0 then "\n" else ""
  }

  /** What the base loop has written after its first n bases. */
  function WrapPrefix(bases: seq<char>, lineLength: int, n: nat): string
    requires lineLength != 0 && n <= |bases|
  {
    if n == 0 then []
    else WrapPrefix(bases, lineLength, n - 1) + BreakBefore(n - 1, lineLength) + [bases[n - 1]]
  }

  /** The base loop. `LINE_LENGTH == 0` fails on the first break test,
      i.e. for any sequence of two or more bases. */
  function WrapBases(bases: seq<char>, lineLength: int): (r: Result<string, FormatError>)
    ensures r.Failure? <==> lineLength == 0 && |bases| >= 2
  {
    if lineLength == 0 then (if |bases| >= 2 then Failure(DivisionByZero) else Success(bases))
    else Success(WrapPrefix(bases, lineLength, |bases|))
  }

  /** No line break among the characters. */
  predicate NoBreaks(s: string) {
    forall k :: 0 <= k < |s| ==> s[k] != '\n'
  }

  /** Remove the line breaks. */
  function Strip(s: string): (r: string)
    ensures |r| <= |s|
    ensures NoBreaks(r)
  {
    if |s| == 0 then []
    else Strip(s[..|s| - 1]) + (if s[|s| - 1] == '\n' then [] else [s[|s| - 1]])
  }

  lemma SliceSnoc(s: seq<char>, i: nat, j: nat)
    requires i < j <= |s|
    ensures s[i..j] == s[i..j - 1] + [s[j - 1]]
  {
  }

  lemma StripSnoc(s: string, c: char)
    ensures Strip(s + [c]) == Strip(s) + (if c == '\n' then [] else [c])
  {
    assert (s + [c])[..|s|] == s;
  }

  /** Stripping a base appended after an optional break. */
  lemma StripExtend(w: string, prev: string, brk: string, c: char, plain: seq<char>)
    requires w == prev + brk + [c] && Strip(prev) == plain
    requires (brk == [] || brk == "\n") && c != '\n'
    ensures Strip(w) == plain + [c]
  {
    StripSnoc(prev + brk, c);
    if brk == "\n" {
      StripSnoc(prev, '\n');
    } else {
      assert prev + brk == prev;
    }
  }

  /** Deleting the inserted line breaks gives back the bases. */
  lemma {:induction false} WrapPreservesBases(bases: seq<char>, lineLength: int, n: nat)
    requires lineLength != 0 && n <= |bases|
    requires NoBreaks(bases)
    ensures Strip(WrapPrefix(bases, lineLength, n)) == bases[..n]
  {
    if n > 0 {
      var c := bases[n - 1];
      WrapPreservesBases(bases, lineLength, n - 1);
      WrapStep(bases, lineLength, n);
      StripExtend(WrapPrefix(bases, lineLength, n), WrapPrefix(bases, lineLength, n - 1),
                  BreakBefore(n - 1, lineLength), c, bases[..n - 1]);
      SliceSnoc(bases, 0, n);
    }
  }

  /** An independent description of the layout: the bases cut into lines
      of `width`, the last one possibly shorter, joined by "\n". */
  function Lines(bases: seq<char>, width: nat): (lines: seq<seq<char>>)
    requires width > 0
    decreases |bases|
  {
    if |bases| == 0 then []
    else
      var lastStart := LastLineStart(|bases|, width);
      Lines(bases[..lastStart], width) + [bases[lastStart..]]
  }

  function Join(lines: seq<seq<char>>): string {
    if |lines| == 0 then []
    else if |lines| == 1 then lines[0]
    else Join(lines[..|lines| - 1]) + "\n" + lines[|lines| - 1]
  }

  function Flatten(lines: seq<seq<char>>): seq<char> {
    if |lines| == 0 then [] else Flatten(lines[..|lines| - 1]) + lines[|lines| - 1]
  }

  /** Index of the first base on the line that holds base n - 1: lines
      start every `width` bases. */
  function LastLineStart(n: nat, width: nat): (start: nat)
    requires width > 0 && n > 0
    ensures start <= n - 1 && n - start <= width
    decreases n
  {
    if n <= width then 0 else width + LastLineStart(n - width, width)
  }

  /** Base n - 1 lies (n - 1) - LastLineStart(n, width) places into its
      line, which is Java's `(n - 1) % width`. */
  lemma {:induction false} LineOffset(n: nat, width: nat)
    requires width > 0 && n > 0
    ensures (n - 1) % width == n - 1 - LastLineStart(n, width)
    decreases n
  {
    if n <= width {
      DivRemUnique(n - 1, width, 0, n - 1);
    } else {
      LineOffset(n - width, width);
      var q := (n - 1 - width) / width;
      var r := n - 1 - LastLineStart(n, width);
      assert n - 1 - width == q * width + r;
      assert n - 1 == (q + 1) * width + r;
      DivRemUnique(n - 1, width, q + 1, r);
    }
  }

  lemma MulNonNegative(d: int, w: int)
    requires w > 0
    decreases if d >= 0 then d else -d
    ensures d >= 0 ==> d * w >= 0
    ensures d >= 1 ==> d * w >= w
    ensures d <= -1 ==> d * w <= -w
  {
    if d >= 1 {
      assert d * w == (d - 1) * w + w;
      MulNonNegative(d - 1, w);
    } else if d <= -1 {
      assert d * w == (d + 1) * w - w;
      MulNonNegative(d + 1, w);
    }
  }

  /** Euclidean division is determined by quotient and remainder. */
  lemma DivRemUnique(x: int, w: int, q: int, r: int)
    requires w > 0 && 0 <= r < w && x == q * w + r
    ensures x / w == q && x % w == r
  {
    var q', r' := x / w, x % w;
    assert (q - q') * w == r' - r;
    MulNonNegative(q - q', w);
  }

  /** The line before a line that does not start at 0 is a full one. */
  lemma {:induction false} PreviousLineFull(n: nat, width: nat)
    requires width > 0 && n > 0 && LastLineStart(n, width) > 0
    ensures LastLineStart(LastLineStart(n, width), width) == LastLineStart(n, width) - width
    decreases n
  {
    if n > width && LastLineStart(n - width, width) > 0 {
      PreviousLineFull(n - width, width);
    }
  }

  lemma {:induction false} LinesFlatten(bases: seq<char>, width: nat)
    requires width > 0
    ensures Flatten(Lines(bases, width)) == bases
    ensures |bases| == 0 <==> |Lines(bases, width)| == 0
    decreases |bases|
  {
    if |bases| > 0 {
      var lastStart := LastLineStart(|bases|, width);
      var prefix := bases[..lastStart];
      LinesFlatten(prefix, width);
      var lines := Lines(bases, width);
      assert lines[..|lines| - 1] == Lines(prefix, width);
      assert bases == prefix + bases[lastStart..];
    }
  }

  /** Bases whose last line is full are cut into full lines only. */
  lemma {:induction false} LinesFull(bases: seq<char>, width: nat)
    requires width > 0
    requires |bases| > 0 ==> LastLineStart(|bases|, width) == |bases| - width
    ensures forall k :: 0 <= k < |Lines(bases, width)| ==> |Lines(bases, width)[k]| == width
    decreases |bases|
  {
    if |bases| > 0 {
      var lastStart := LastLineStart(|bases|, width);
      if lastStart > 0 {
        PreviousLineFull(|bases|, width);
      }
      LinesFull(bases[..lastStart], width);
    }
  }

  /** Every line but the last holds exactly `width` bases, the last holds
      1..width, and together they are the bases. */
  lemma LinesShape(bases: seq<char>, width: nat)
    requires width > 0
    ensures Flatten(Lines(bases, width)) == bases
    ensures |bases| == 0 <==> |Lines(bases, width)| == 0
    ensures forall k :: 0 <= k < |Lines(bases, width)| - 1 ==> |Lines(bases, width)[k]| == width
    ensures |bases| > 0 ==> 1 <= |Lines(bases, width)[|Lines(bases, width)| - 1]| <= width
  {
    LinesFlatten(bases, width);
    if |bases| > 0 {
      var lastStart := LastLineStart(|bases|, width);
      if lastStart > 0 {
        PreviousLineFull(|bases|, width);
      }
      LinesFull(bases[..lastStart], width);
    }
  }

  lemma JoinAppend(lines: seq<seq<char>>, line: seq<char>)
    ensures Join(lines + [line]) == if |lines| == 0 then line else Join(lines) + "\n" + line
  {
    assert (lines + [line])[..|lines|] == lines;
  }

  /** When base n - 1 does not start a line, it shares its line with base
      n - 2. */
  lemma {:induction false} SameLine(n: nat, w: nat)
    requires w > 0 && n >= 1 && LastLineStart(n, w) != n - 1
    ensures n >= 2 && LastLineStart(n - 1, w) == LastLineStart(n, w)
    decreases n
  {
    if n > w {
      SameLine(n - w, w);
    }
  }

  /** The break rule in terms of lines: a break goes before base n - 1
      exactly when that base starts a line other than the first. */
  lemma BreakRule(n: nat, lineLength: int)
    requires lineLength != 0 && n >= 1
    ensures BreakBefore(n - 1, lineLength)
         == if LastLineStart(n, Abs(lineLength)) == n - 1 && n >= 2 then "\n" else ""
  {
    LineOffset(n, Abs(lineLength));
  }

  lemma WrapStep(bases: seq<char>, lineLength: int, n: nat)
    requires lineLength != 0 && 0 < n <= |bases|
    ensures WrapPrefix(bases, lineLength, n)
         == WrapPrefix(bases, lineLength, n - 1) + BreakBefore(n - 1, lineLength) + [bases[n - 1]]
  {
  }

  /** The lines of a prefix: those before the last line start, then the
      last line. */
  lemma LinesStep(bases: seq<char>, w: nat, n: nat)
    requires w > 0 && 0 < n <= |bases|
    ensures LastLineStart(n, w) <= n - 1
    ensures Lines(bases[..n], w)
         == Lines(bases[..LastLineStart(n, w)], w) + [bases[LastLineStart(n, w)..n]]
  {
    var current := bases[..n];
    assert current[..LastLineStart(n, w)] == bases[..LastLineStart(n, w)];
  }

  /** Appending a base to the last line. */
  lemma JoinExtendLine(before: seq<seq<char>>, line: seq<char>, c: char)
    ensures Join(before + [line + [c]]) == Join(before + [line]) + [c]
  {
    JoinAppend(before, line + [c]);
    JoinAppend(before, line);
    if |before| > 0 {
      var j := Join(before);
      assert j + "\n" + (line + [c]) == (j + "\n" + line) + [c];
    }
  }

  /** Appending a base as a new line. */
  lemma JoinNewLine(before: seq<seq<char>>, c: char)
    ensures Join(before + [[c]]) == Join(before) + (if |before| == 0 then "" else "\n") + [c]
  {
    JoinAppend(before, [c]);
  }

  /** A base that starts a line: the wrapped output gains a break (unless
      it is the first base) and the base, the layout a new line. */
  lemma WrapNewLine(bases: seq<char>, lineLength: int, n: nat)
    requires lineLength != 0 && 0 < n <= |bases|
    requires LastLineStart(n, Abs(lineLength)) == n - 1
    requires WrapPrefix(bases, lineLength, n - 1) == Join(Lines(bases[..n - 1], Abs(lineLength)))
    ensures WrapPrefix(bases, lineLength, n) == Join(Lines(bases[..n], Abs(lineLength)))
  {
    var w := Abs(lineLength);
    var before := Lines(bases[..n - 1], w);
    WrapStep(bases, lineLength, n);
    BreakRule(n, lineLength);
    LinesStep(bases, w, n);
    LinesFlatten(bases[..n - 1], w);
    SliceOne(bases, n - 1);
    AppendNewLine(WrapPrefix(bases, lineLength, n), WrapPrefix(bases, lineLength, n - 1),
                  BreakBefore(n - 1, lineLength), bases[n - 1], before, Lines(bases[..n], w));
  }

  lemma SliceOne(s: seq<char>, i: nat)
    requires i < |s|
    ensures s[i..i + 1] == [s[i]]
  {
  }

  lemma AppendNewLine(out: string, previous: string, brk: string, c: char, before: seq<seq<char>>,
                      lines: seq<seq<char>>)
    requires out == previous + brk + [c] && previous == Join(before)
    requires brk == if |before| == 0 then "" else "\n"
    requires lines == before + [[c]]
    ensures out == Join(lines)
  {
    JoinNewLine(before, c);
  }

  /** A base that continues a line: the wrapped output gains the base, the
      layout a longer last line. */
  lemma WrapSameLine(bases: seq<char>, lineLength: int, n: nat)
    requires lineLength != 0 && 0 < n <= |bases|
    requires LastLineStart(n, Abs(lineLength)) != n - 1
    requires WrapPrefix(bases, lineLength, n - 1) == Join(Lines(bases[..n - 1], Abs(lineLength)))
    ensures WrapPrefix(bases, lineLength, n) == Join(Lines(bases[..n], Abs(lineLength)))
  {
    var w := Abs(lineLength);
    var lastStart := LastLineStart(n, w);
    var before := Lines(bases[..lastStart], w);
    var line := bases[lastStart..n - 1];
    WrapStep(bases, lineLength, n);
    BreakRule(n, lineLength);
    SameLine(n, w);
    LinesStep(bases, w, n);
    LinesStep(bases, w, n - 1);
    SliceSnoc(bases, lastStart, n);
    AppendToLastLine(WrapPrefix(bases, lineLength, n), WrapPrefix(bases, lineLength, n - 1),
                     BreakBefore(n - 1, lineLength), bases[n - 1], before, line,
                     Lines(bases[..n - 1], w), Lines(bases[..n], w));
  }

  lemma AppendToLastLine(out: string, previous: string, brk: string, c: char, before: seq<seq<char>>,
                         line: seq<char>, previousLines: seq<seq<char>>, lines: seq<seq<char>>)
    requires out == previous + brk + [c] && brk == []
    requires previous == Join(previousLines) && previousLines == before + [line]
    requires lines == before + [line + [c]]
    ensures out == Join(lines)
  {
    JoinExtendLine(before, line, c);
  }

  /** The break rule produces exactly that layout. */
  lemma {:induction false} WrapIsJoinedLines(bases: seq<char>, lineLength: int, n: nat)
    requires lineLength != 0 && n <= |bases|
    ensures WrapPrefix(bases, lineLength, n) == Join(Lines(bases[..n], Abs(lineLength)))
  {
    if n > 0 {
      WrapIsJoinedLines(bases, lineLength, n - 1);
      if LastLineStart(n, Abs(lineLength)) == n - 1 {
        WrapNewLine(bases, lineLength, n);
      } else {
        WrapSameLine(bases, lineLength, n);
      }
    }
  }

  /** One record of `NormalizeFasta`: ">" + name + line break, then, unless
      the sequence is empty, the wrapped bases and a final "\n". */
  function NormalizeRecord(name: string, bases: seq<char>, lineLength: int): (r: Result<string, FormatError>)
    ensures r.Failure? <==> lineLength == 0 && |bases| >= 2
    ensures r.Success? ==> |r.value| >= |name| + 2 && r.value[..|name| + 2] == ">" + name + "\n"
    ensures r.Success? && |bases| == 0 ==> r.value == ">" + name + "\n"
    ensures r.Success? && |bases| > 0 ==> |r.value| > |name| + 2 && r.value[|r.value| - 1] == '\n'
  {
    match WrapBases(bases, lineLength)
    case Failure(e) => Failure(e)
    case Success(body) =>
      var header := ">" + name + "\n";
      if |bases| == 0 then Success(header)
      else
        var record := header + body + "\n";
        assert record[..|name| + 2] == header;
        Success(record)
  }

  /** A reference sequence as `NormalizeFasta` reads it. */
  datatype Sequence = Sequence(name: string, bases: seq<char>)

  /** `NormalizeFasta.doWork`: every record in input order; the first
      record that cannot be written stops the run. */
  function Normalize(records: seq<Sequence>, lineLength: int): (r: Result<string, FormatError>)
    ensures r.Failure? <==> lineLength == 0 && exists k :: 0 <= k < |records| && |records[k].bases| >= 2
  {
    if |records| == 0 then Success([])
    else
      var last := records[|records| - 1];
      match Normalize(records[..|records| - 1], lineLength)
      case Failure(e) => Failure(e)
      case Success(out) =>
        match NormalizeRecord(last.name, last.bases, lineLength)
        case Failure(e) => Failure(e)
        case Success(record) => Success(out + record)
  }

  /** Records come out in input order: the output of a list followed by one
      more record is the list's output followed by that record's. */
  lemma NormalizeInOrder(records: seq<Sequence>, next: Sequence, lineLength: int)
    requires lineLength != 0
    ensures Normalize(records + [next], lineLength).Success?
    ensures Normalize(records + [next], lineLength).value ==
      Normalize(records, lineLength).value + NormalizeRecord(next.name, next.bases, lineLength).value
  {
    assert (records + [next])[..|records|] == records;
  }

  /** With a nonzero line length, the sequence part of a normalised record
      is the bases cut into lines of |LINE_LENGTH| (Java's `%` ignores the
      divisor's sign): every line full but the last, which holds 1 to
      |LINE_LENGTH| bases. */
  lemma NormalizeRecordLayout(name: string, bases: seq<char>, lineLength: int)
    requires lineLength != 0 && |bases| > 0
    ensures NormalizeRecord(name, bases, lineLength).value ==
      ">" + name + "\n" + Join(Lines(bases, Abs(lineLength))) + "\n"
    ensures Flatten(Lines(bases, Abs(lineLength))) == bases
    ensures forall k :: 0 <= k < |Lines(bases, Abs(lineLength))| - 1 ==>
      |Lines(bases, Abs(lineLength))[k]| == Abs(lineLength)
  {
    WrapIsJoinedLines(bases, lineLength, |bases|);
    assert bases[..|bases|] == bases;
    LinesShape(bases, Abs(lineLength));
  }

  /** Removing the line breaks from the sequence part of a normalised
      record gives back the bases. */
  lemma NormalizeRecordContent(name: string, bases: seq<char>, lineLength: int)
    requires lineLength != 0 && |bases| > 0 && NoBreaks(bases)
    ensures NormalizeRecord(name, bases, lineLength).value ==
      ">" + name + "\n" + WrapPrefix(bases, lineLength, |bases|) + "\n"
    ensures Strip(WrapPrefix(bases, lineLength, |bases|)) == bases
  {
    WrapPreservesBases(bases, lineLength, |bases|);
    assert bases[..|bases|] == bases;
  }

  /** An interval of the interval list: 1-based, inclusive. */
  datatype Interval = Interval(contig: string, start: int, end: int, negativeStrand: bool, name: string)

  /** The reference holds the interval (the sequence dictionaries agree
      and the interval lies on its contig). */
  ghost predicate Inside(reference: map<string, seq<char>>, iv: Interval) {
    iv.contig in reference && 1 <= iv.start && iv.start - 1 <= iv.end <= |reference[iv.contig]|
  }

  /** `getSubsequenceAt`, reverse complemented on the negative strand. */
  function OrientedBases(reference: map<string, seq<char>>, iv: Interval, reverseComplement: seq<char> -> seq<char>)
    : seq<char>
    requires Inside(reference, iv)
  {
    var bases := reference[iv.contig][iv.start - 1..iv.end];
    if iv.negativeStrand then reverseComplement(bases) else bases
  }

  /** One record of `ExtractSequences`: ">" + name + "\n", the wrapped
      bases, then always "\n", even for an empty interval. */
  function ExtractRecord(name: string, bases: seq<char>, lineLength: int): (r: Result<string, FormatError>)
    ensures r.Failure? <==> lineLength == 0 && |bases| >= 2
    ensures r.Success? ==> |r.value| > |name| + 2 && r.value[..|name| + 2] == ">" + name + "\n"
    ensures r.Success? ==> r.value[|r.value| - 1] == '\n'
    ensures r.Success? && |bases| == 0 ==> r.value == ">" + name + "\n" + "\n"
  {
    match WrapBases(bases, lineLength)
    case Failure(e) => Failure(e)
    case Success(body) =>
      var record := ">" + name + "\n" + body + "\n";
      assert record[..|name| + 2] == ">" + name + "\n";
      Success(record)
  }

  /** `ExtractSequences.doWork`: every interval in list order. */
  function Extract(reference: map<string, seq<char>>, intervals: seq<Interval>,
                   reverseComplement: seq<char> -> seq<char>, lineLength: int): (r: Result<string, FormatError>)
    requires forall iv :: iv in intervals ==> Inside(reference, iv)
    ensures lineLength != 0 ==> r.Success?
    ensures r.Failure? <==>
      lineLength == 0 &&
      exists k :: 0 <= k < |intervals| && |OrientedBases(reference, intervals[k], reverseComplement)| >= 2
  {
    if |intervals| == 0 then Success([])
    else
      var last := intervals[|intervals| - 1];
      match Extract(reference, intervals[..|intervals| - 1], reverseComplement, lineLength)
      case Failure(e) => Failure(e)
      case Success(out) =>
        match ExtractRecord(last.name, OrientedBases(reference, last, reverseComplement), lineLength)
        case Failure(e) => Failure(e)
        case Success(record) => Success(out + record)
  }

  lemma ExtractInOrder(reference: map<string, seq<char>>, intervals: seq<Interval>, next: Interval,
                       reverseComplement: seq<char> -> seq<char>, lineLength: int)
    requires forall iv :: iv in intervals ==> Inside(reference, iv)
    requires Inside(reference, next) && lineLength != 0
    ensures Extract(reference, intervals + [next], reverseComplement, lineLength).value ==
      Extract(reference, intervals, reverseComplement, lineLength).value
      + ExtractRecord(next.name, OrientedBases(reference, next, reverseComplement), lineLength).value
  {
    assert (intervals + [next])[..|intervals|] == intervals;
  }

  /** With breaks removed, an extracted record's body is the interval's
      bases, reverse complemented exactly when it is on the negative
      strand. */
  lemma ExtractedContent(reference: map<string, seq<char>>, iv: Interval,
                         reverseComplement: seq<char> -> seq<char>, lineLength: int)
    requires Inside(reference, iv) && lineLength != 0
    requires NoBreaks(OrientedBases(reference, iv, reverseComplement))
    ensures var bases := OrientedBases(reference, iv, reverseComplement);
      && ExtractRecord(iv.name, bases, lineLength).value
         == ">" + iv.name + "\n" + WrapPrefix(bases, lineLength, |bases|) + "\n"
      && Strip(WrapPrefix(bases, lineLength, |bases|))
         == if iv.negativeStrand then reverseComplement(reference[iv.contig][iv.start - 1..iv.end])
            else reference[iv.contig][iv.start - 1..iv.end]
  {
    var bases := OrientedBases(reference, iv, reverseComplement);
    WrapPreservesBases(bases, lineLength, |bases|);
    assert bases[..|bases|] == bases;
  }
}
