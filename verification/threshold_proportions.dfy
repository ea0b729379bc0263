/** `TheoreticalSensitivity.proportionsAboveThresholds`: for every row of
    sampled sums and every threshold, the fraction of the row's samples
    that are not below the threshold.

    The source sorts each row and merges it once against the ascending
    thresholds. As written (TheoreticalSensitivity.java:59-63) the merge
    advances the threshold index before storing and stores into a row that
    has not been added yet; this model stores cell n and then advances,
    the behaviour the unit test expects. */
module ThresholdProportions {
  import opened Wrappers

  /** Number of samples s with `s >= t`, i.e. not `t > s`. */
  function CountAtLeast(samples: seq<int>, t: real): (c: nat)
    ensures c <= |samples|
  {
    if |samples| == 0 then 0
    else (if samples[0] as real >= t then 1 else 0) + CountAtLeast(samples[1..], t)
  }

  /** The fraction stored in a cell: a row without samples stays 0. */
  function Proportion(count: nat, size: nat): real {
    if size == 0 then 0.0 else count as real / size as real
  }

  /** The fraction of `samples` at or above `t`: what one cell holds. */
  function Exceeds(samples: seq<int>, t: real): real {
    Proportion(CountAtLeast(samples, t), |samples|)
  }

  ghost predicate Sorted(s: seq<int>) {
    forall i, j :: 0 <= i < j < |s| ==> s[i] <= s[j]
  }

  ghost predicate Ascending(thresholds: seq<real>) {
    forall i, j :: 0 <= i < j < |thresholds| ==> thresholds[i] <= thresholds[j]
  }

  lemma {:induction false} CountConcat(a: seq<int>, b: seq<int>, t: real)
    ensures CountAtLeast(a + b, t) == CountAtLeast(a, t) + CountAtLeast(b, t)
    decreases |a|
  {
    if |a| == 0 {
      assert a + b == b;
    } else {
      assert (a + b)[0] == a[0];
      assert (a + b)[1..] == a[1..] + b;
      CountConcat(a[1..], b, t);
    }
  }

  lemma {:induction false} CountAllBelow(s: seq<int>, t: real)
    requires forall k :: 0 <= k < |s| ==> (s[k] as real) < t
    ensures CountAtLeast(s, t) == 0
    decreases |s|
  {
    if |s| > 0 {
      CountAllBelow(s[1..], t);
    }
  }

  lemma {:induction false} CountAllAtLeast(s: seq<int>, t: real)
    requires forall k :: 0 <= k < |s| ==> s[k] as real >= t
    ensures CountAtLeast(s, t) == |s|
    decreases |s|
  {
    if |s| > 0 {
      CountAllAtLeast(s[1..], t);
    }
  }

  /** Removing the sample at j: the count drops by that sample's share. */
  lemma CountRemove(b: seq<int>, j: nat, t: real)
    requires j < |b|
    ensures CountAtLeast(b, t)
         == CountAtLeast(b[..j] + b[j + 1..], t) + (if b[j] as real >= t then 1 else 0)
  {
    assert b == b[..j] + [b[j]] + b[j + 1..];
    CountConcat(b[..j], b[j + 1..], t);
    CountConcat(b[..j] + [b[j]], b[j + 1..], t);
    CountConcat(b[..j], [b[j]], t);
    assert [b[j]][1..] == [];
  }

  /** Matching the first sample of a with sample j of b leaves equal
      multisets behind. */
  lemma MultisetRemove(a: seq<int>, b: seq<int>, j: nat)
    requires multiset(a) == multiset(b) && |a| > 0 && j < |b| && b[j] == a[0]
    ensures multiset(a[1..]) == multiset(b[..j] + b[j + 1..])
  {
    assert b == b[..j] + [b[j]] + b[j + 1..];
    assert a == [a[0]] + a[1..];
    assert multiset(a) == multiset{a[0]} + multiset(a[1..]);
    assert multiset(b) == multiset(b[..j]) + multiset{b[j]} + multiset(b[j + 1..]);
    assert multiset(b[..j] + b[j + 1..]) == multiset(b[..j]) + multiset(b[j + 1..]);
    assert multiset(a[1..]) == multiset(a) - multiset{a[0]};
  }

  /** The count depends only on the multiset of samples, so sorting a row
      first does not change it. */
  lemma {:induction false} CountPermutation(a: seq<int>, b: seq<int>, t: real)
    requires multiset(a) == multiset(b)
    ensures CountAtLeast(a, t) == CountAtLeast(b, t)
    decreases |a|
  {
    if |a| == 0 {
      assert |b| == |multiset(b)| == 0;
    } else {
      assert a[0] in multiset(b);
      var j :| 0 <= j < |b| && b[j] == a[0];
      MultisetRemove(a, b, j);
      CountPermutation(a[1..], b[..j] + b[j + 1..], t);
      CountRemove(b, j, t);
    }
  }

  /** In a sorted row whose first j samples are below t and whose sample j
      (if any) is not, exactly |row| - j samples are not below t. */
  lemma CountSortedSplit(s: seq<int>, j: nat, t: real)
    requires Sorted(s) && j <= |s|
    requires forall k :: 0 <= k < j ==> (s[k] as real) < t
    requires j < |s| ==> s[j] as real >= t
    ensures CountAtLeast(s, t) == |s| - j
  {
    assert s == s[..j] + s[j..];
    CountConcat(s[..j], s[j..], t);
    CountAllBelow(s[..j], t);
    CountAllAtLeast(s[j..], t);
  }

  /** Inserts x into a sorted row. */
  function Insert(x: int, s: seq<int>): (r: seq<int>)
    requires Sorted(s)
    ensures Sorted(r)
    ensures multiset(r) == multiset(s) + multiset{x}
    ensures |r| == |s| + 1
    ensures forall k :: 0 <= k < |r| ==> r[k] == x || r[k] in s
  {
    if |s| == 0 then [x]
    else if x <= s[0] then [x] + s
    else
      var tail := Insert(x, s[1..]);
      InsertBehindHead(x, s, tail);
      [s[0]] + tail
  }

  /** Putting the head of s back in front of x inserted into the rest. */
  lemma InsertBehindHead(x: int, s: seq<int>, tail: seq<int>)
    requires Sorted(s) && |s| > 0 && x > s[0]
    requires Sorted(tail) && |tail| == |s|
    requires multiset(tail) == multiset(s[1..]) + multiset{x}
    requires forall k :: 0 <= k < |tail| ==> tail[k] == x || tail[k] in s[1..]
    ensures Sorted([s[0]] + tail)
    ensures multiset([s[0]] + tail) == multiset(s) + multiset{x}
    ensures forall k :: 0 <= k < |tail| + 1 ==> ([s[0]] + tail)[k] == x || ([s[0]] + tail)[k] in s
  {
    assert s == [s[0]] + s[1..];
    forall k | 0 <= k < |tail|
      ensures tail[k] >= s[0]
    {
      if tail[k] != x {
        var i :| 0 <= i < |s[1..]| && s[1..][i] == tail[k];
        assert s[i + 1] == tail[k];
      }
    }
  }

  /** The ascending order `Collections.sort` puts a row in. */
  function Sort(s: seq<int>): (r: seq<int>)
    ensures Sorted(r)
    ensures multiset(r) == multiset(s)
  {
    if |s| == 0 then []
    else
      assert s == [s[0]] + s[1..];
      Insert(s[0], Sort(s[1..]))
  }

  /** The single-pass merge of one sorted row against the thresholds:
      store cell n once the sample index reaches the first sample not below
      threshold n, then advance n. Cells never reached stay 0. */
  method MergeRow(sorted: seq<int>, thresholds: seq<real>) returns (row: seq<real>)
    requires Sorted(sorted) && Ascending(thresholds)
    ensures |row| == |thresholds|
    ensures forall n :: 0 <= n < |thresholds| ==>
      row[n] == Exceeds(sorted, thresholds[n])
  {
    var size := |sorted|;
    row := seq(|thresholds|, _ => 0.0);
    var n, j := 0, 0;
    while n < |thresholds| && j < size
      invariant 0 <= n <= |thresholds| && 0 <= j <= size && |row| == |thresholds|
      invariant n < |thresholds| ==> forall k :: 0 <= k < j ==> (sorted[k] as real) < thresholds[n]
      invariant forall k :: 0 <= k < n ==>
        row[k] == Exceeds(sorted, thresholds[k])
      invariant forall k :: n <= k < |thresholds| ==> row[k] == 0.0
      decreases |thresholds| - n + size - j
    {
      if thresholds[n] > sorted[j] as real {
        j := j + 1;
      } else {
        CountSortedSplit(sorted, j, thresholds[n]);
        row := row[n := (size - j) as real / size as real];
        n := n + 1;
      }
    }
    forall k | n <= k < |thresholds|
      ensures row[k] == Exceeds(sorted, thresholds[k])
    {
      CountSortedSplit(sorted, size, thresholds[k]);
    }
  }

  /** `proportionsAboveThresholds(sums, thresholds)`: cell (m, n) is the
      fraction of row m's samples that are not below threshold n, whatever
      order the row's samples come in. */
  method ProportionsAboveThresholds(sums: seq<seq<int>>, thresholds: seq<real>)
    returns (result: seq<seq<real>>)
    requires Ascending(thresholds)
    ensures |result| == |sums|
    ensures forall m :: 0 <= m < |sums| ==> |result[m]| == |thresholds|
    ensures forall m, n :: 0 <= m < |sums| && 0 <= n < |thresholds| ==>
      result[m][n] == Exceeds(sums[m], thresholds[n])
  {
    result := [];
    for m := 0 to |sums|
      invariant Tabulated(result, sums, thresholds, m)
    {
      var sorted := Sort(sums[m]);
      var row := MergeRow(sorted, thresholds);
      SortedRowMatches(sorted, sums[m], thresholds, row);
      TabulatedStep(result, sums, thresholds, m, row);
      result := result + [row];
    }
  }

  /** The first m rows of the result are the rows of the first m sample lists. */
  ghost predicate Tabulated(result: seq<seq<real>>, sums: seq<seq<int>>, thresholds: seq<real>, m: nat)
    requires m <= |sums|
  {
    && |result| == m
    && (forall i :: 0 <= i < m ==> |result[i]| == |thresholds|)
    && (forall i, n :: 0 <= i < m && 0 <= n < |thresholds| ==> result[i][n] == Exceeds(sums[i], thresholds[n]))
  }

  lemma TabulatedStep(result: seq<seq<real>>, sums: seq<seq<int>>, thresholds: seq<real>, m: nat, row: seq<real>)
    requires m < |sums| && Tabulated(result, sums, thresholds, m) && |row| == |thresholds|
    requires forall n :: 0 <= n < |thresholds| ==> row[n] == Exceeds(sums[m], thresholds[n])
    ensures Tabulated(result + [row], sums, thresholds, m + 1)
  {
    var next := result + [row];
    assert next[m] == row;
    assert forall i :: 0 <= i < m ==> next[i] == result[i];
  }

  /** The merge as written raises `IndexOutOfBoundsException`. */
  datatype MergeError = IndexOutOfBounds

  /** The merge loop of one row exactly as written, from sample index j.
      Its store goes through `result.get(m)` while `result` still holds only
      the m rows before this one, so the first store throws; until then n
      stays 0 and only j advances. A row that never stores is the row of
      zeros. */
  function MergeRowAsWritten(sorted: seq<int>, thresholds: seq<real>, j: nat): (r: Result<seq<real>, MergeError>)
    requires j <= |sorted|
    decreases |sorted| - j
  {
    if 0 < |thresholds| && j < |sorted| then
      if thresholds[0] > sorted[j] as real then MergeRowAsWritten(sorted, thresholds, j + 1)
      else Failure(IndexOutOfBounds)
    else Success(seq(|thresholds|, _ => 0.0))
  }

  /** As written, a row fails exactly when some sample reaches the first
      threshold: every row that would get a nonzero cell crashes. */
  lemma {:induction false} MergeAsWrittenFails(sorted: seq<int>, thresholds: seq<real>, j: nat)
    requires j <= |sorted|
    ensures MergeRowAsWritten(sorted, thresholds, j).Failure? <==>
      |thresholds| > 0 && exists k :: j <= k < |sorted| && sorted[k] as real >= thresholds[0]
    decreases |sorted| - j
  {
    if 0 < |thresholds| && j < |sorted| && thresholds[0] > sorted[j] as real {
      MergeAsWrittenFails(sorted, thresholds, j + 1);
      if exists k :: j <= k < |sorted| && sorted[k] as real >= thresholds[0] {
        var k :| j <= k < |sorted| && sorted[k] as real >= thresholds[0];
        assert k != j;
      }
    }
  }

  /** The unit test's first row, [0, 0, 0] against (-1, 1, 6): the code as
      written throws where the intended merge gives [1, 0, 0]. */
  method UnitTestRowAsWritten() returns (asWritten: Result<seq<real>, MergeError>, intended: seq<real>)
    ensures asWritten == Failure(IndexOutOfBounds)
    ensures intended == [1.0, 0.0, 0.0]
  {
    var sorted, thresholds := [0, 0, 0], [-1.0, 1.0, 6.0];
    asWritten := MergeRowAsWritten(sorted, thresholds, 0);
    intended := MergeRow(sorted, thresholds);
    UnitTestCounts();
    assert intended[0] == 1.0 && intended[1] == 0.0 && intended[2] == 0.0;
  }

  /** A row computed from a sorted copy is the row of the samples. */
  lemma SortedRowMatches(sorted: seq<int>, samples: seq<int>, thresholds: seq<real>, row: seq<real>)
    requires multiset(sorted) == multiset(samples) && |row| == |thresholds|
    requires forall n :: 0 <= n < |thresholds| ==>
      row[n] == Exceeds(sorted, thresholds[n])
    ensures forall n :: 0 <= n < |thresholds| ==>
      row[n] == Exceeds(samples, thresholds[n])
  {
    assert |sorted| == |multiset(sorted)| == |samples|;
    forall n | 0 <= n < |thresholds|
      ensures row[n] == Exceeds(samples, thresholds[n])
    {
      CountPermutation(sorted, samples, thresholds[n]);
    }
  }

  /** Every proportion lies in [0,1]; it is 1 for a threshold at or below
      every sample and 0 for one above every sample. */
  lemma ProportionBounds(samples: seq<int>, t: real)
    ensures 0.0 <= Exceeds(samples, t) <= 1.0
    ensures |samples| > 0 && (forall k :: 0 <= k < |samples| ==> samples[k] as real >= t) ==>
      Exceeds(samples, t) == 1.0
    ensures (forall k :: 0 <= k < |samples| ==> (samples[k] as real) < t) ==>
      Exceeds(samples, t) == 0.0
  {
    if forall k :: 0 <= k < |samples| ==> samples[k] as real >= t {
      CountAllAtLeast(samples, t);
    }
    if forall k :: 0 <= k < |samples| ==> (samples[k] as real) < t {
      CountAllBelow(samples, t);
    }
    ProportionRange(CountAtLeast(samples, t), |samples|);
  }

  lemma ProportionRange(count: nat, size: nat)
    requires count <= size
    ensures 0.0 <= Proportion(count, size) <= 1.0
    ensures size > 0 && count == size ==> Proportion(count, size) == 1.0
    ensures count == 0 ==> Proportion(count, size) == 0.0
  {
    if size > 0 {
      assert count as real / size as real <= size as real / size as real;
    }
  }

  /** The unit test's vectors, thresholds (-1, 1, 6); a sample equal to a
      threshold would count as above it. */
  method UnitTestVectors() returns (result: seq<seq<real>>)
    ensures result == [[1.0, 0.0, 0.0], [1.0, 1.0, 1.0], [0.75, 0.75, 0.25]]
  {
    var sums := [[0, 0, 0], [10, 10], [5, 11, -2, 4]];
    var thresholds := [-1.0, 1.0, 6.0];
    result := ProportionsAboveThresholds(sums, thresholds);
    UnitTestCounts();
    assert sums[0] == [0, 0, 0] && sums[1] == [10, 10] && sums[2] == [5, 11, -2, 4];
    assert thresholds[0] == -1.0 && thresholds[1] == 1.0 && thresholds[2] == 6.0;
    assert result[0][0] == 1.0 && result[0][1] == 0.0 && result[0][2] == 0.0;
    assert result[1][0] == 1.0 && result[1][1] == 1.0 && result[1][2] == 1.0;
    assert result[2][0] == 0.75 && result[2][1] == 0.75 && result[2][2] == 0.25;
    assert result[0] == [1.0, 0.0, 0.0];
    assert result[1] == [1.0, 1.0, 1.0];
    assert result[2] == [0.75, 0.75, 0.25];
  }

  lemma UnitTestCounts()
    ensures CountAtLeast([0, 0, 0], -1.0) == 3
    ensures CountAtLeast([0, 0, 0], 1.0) == 0 && CountAtLeast([0, 0, 0], 6.0) == 0
    ensures CountAtLeast([10, 10], -1.0) == 2 && CountAtLeast([10, 10], 1.0) == 2
    ensures CountAtLeast([10, 10], 6.0) == 2
    ensures CountAtLeast([5, 11, -2, 4], -1.0) == 3 && CountAtLeast([5, 11, -2, 4], 1.0) == 3
    ensures CountAtLeast([5, 11, -2, 4], 6.0) == 1
  {
    assert [5, 11, -2, 4][1..] == [11, -2, 4] && [11, -2, 4][1..] == [-2, 4];
    assert [-2, 4][1..] == [4] && [4][1..] == [];
    assert [0, 0, 0][1..] == [0, 0] && [0, 0][1..] == [0] && [0][1..] == [];
    assert [10, 10][1..] == [10] && [10][1..] == [];
  }

  /** The boundary case: a sample equal to the threshold is counted as
      above it (the merge only skips samples strictly below). */
  method EqualSampleVector() returns (result: seq<seq<real>>)
    ensures result == [[0.5]]
  {
    var sums, thresholds := [[6, 4]], [6.0];
    result := ProportionsAboveThresholds(sums, thresholds);
    assert CountAtLeast(sums[0], thresholds[0]) == 1;
    assert result[0][0] == 0.5;
    assert result[0] == [0.5];
  }
}
