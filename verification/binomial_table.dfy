/** `TheoreticalSensitivity.hetAltDepthDistribution`: the table of fair-coin
    binomial probabilities C(n,m)/2^n, built row by row from the previous
    row rather than from factorials.

    Row 0 is [1, 1], not [1]: the source appends the m = n element (a copy
    of element 0) also when n = 0. */
module BinomialTable {

  /** Binomial coefficients by Pascal's rule: the independent reference. */
  function Binom(n: nat, m: nat): nat {
    if m == 0 then 1
    else if n == 0 then 0
    else Binom(n - 1, m - 1) + Binom(n - 1, m)
  }

  function Pow2(n: nat): (p: nat)
    ensures p >= 1
  {
    if n == 0 then 1 else 2 * Pow2(n - 1)
  }

  /** Sum of the reals in a row. */
  function RealSum(s: seq<real>): real {
    if |s| == 0 then 0.0 else RealSum(s[..|s| - 1]) + s[|s| - 1]
  }

  lemma {:induction false} BinomAbove(n: nat, m: nat)
    requires m > n
    ensures Binom(n, m) == 0
    decreases n
  {
    if n > 0 {
      BinomAbove(n - 1, m - 1);
      BinomAbove(n - 1, m);
    }
  }

  lemma BinomDiagonal(n: nat)
    ensures Binom(n, n) == 1
  {
    if n > 0 {
      BinomDiagonal(n - 1);
      BinomAbove(n - 1, n);
    }
  }

  lemma AbsorptionStep(m: int, n: int, a: int, b: int, c: int, d: int)
    requires a == c + d
    requires (m - 1) * a == (n - 1) * c
    requires m * b == (n - 1) * d
    ensures m * (a + b) == n * a
  {
    calc {
      m * (a + b);
      (m - 1) * a + a + m * b;
      (n - 1) * c + a + (n - 1) * d;
      (n - 1) * (c + d) + a;
      n * a;
    }
  }

  /** The identity behind the recurrence: m·C(n,m) = n·C(n-1,m-1). */
  lemma {:induction false} BinomAbsorption(n: nat, m: nat)
    requires 1 <= m <= n
    ensures m * Binom(n, m) == n * Binom(n - 1, m - 1)
    decreases n
  {
    if n == 1 {
      assert Binom(1, 1) == Binom(0, 0) + Binom(0, 1);
    } else if m == 1 {
      BinomAbsorption(n - 1, 1);
      assert Binom(n, 1) == Binom(n - 1, 0) + Binom(n - 1, 1);
    } else {
      var a, b := Binom(n - 1, m - 1), Binom(n - 1, m);
      var c, d := Binom(n - 2, m - 2), Binom(n - 2, m - 1);
      assert Binom(n, m) == a + b;
      assert a == c + d;
      BinomAbsorption(n - 1, m - 1);
      if m < n {
        BinomAbsorption(n - 1, m);
      } else {
        BinomAbove(n - 1, m);
        BinomAbove(n - 2, m - 1);
      }
      AbsorptionStep(m, n, a, b, c, d);
    }
  }

  /** Row n (n >= 1) from row n-1, as the source builds it. */
  function NextRow(prev: seq<real>, n: nat): (row: seq<real>)
    requires n >= 1 && |prev| >= n
    ensures |row| == n + 1
  {
    [0.5 * prev[0]]
    + seq(n - 1, k requires 0 <= k < n - 1 => 0.5 * n as real * prev[k] / (k + 1) as real)
    + [0.5 * prev[0]]
  }

  lemma RealStep(n: nat, m: nat, b: nat, c: nat, p: nat, prevEntry: real)
    requires m >= 1 && p >= 1
    requires m * b == n * c
    requires prevEntry == c as real / p as real
    ensures 0.5 * n as real * prevEntry / m as real == b as real / (2 * p) as real
  {
    var nr, mr, br, cr, pr := n as real, m as real, b as real, c as real, p as real;
    assert mr * br == nr * cr by {
      assert (m * b) as real == (n * c) as real;
    }
    calc {
      0.5 * nr * prevEntry / mr;
      0.5 * nr * (cr / pr) / mr;
      (nr * cr) / (2.0 * pr * mr);
      (mr * br) / (2.0 * pr * mr);
      br / (2.0 * pr);
    }
  }

  lemma InteriorEntry(n: nat, m: nat, prevEntry: real)
    requires 1 <= m < n
    requires prevEntry == Binom(n - 1, m - 1) as real / Pow2(n - 1) as real
    ensures 0.5 * n as real * prevEntry / m as real == Binom(n, m) as real / Pow2(n) as real
  {
    BinomAbsorption(n, m);
    RealStep(n, m, Binom(n, m), Binom(n - 1, m - 1), Pow2(n - 1), prevEntry);
  }

  lemma NextRowEntries(prev: seq<real>, n: nat)
    requires n >= 1 && |prev| >= n
    ensures NextRow(prev, n)[0] == 0.5 * prev[0]
    ensures NextRow(prev, n)[n] == 0.5 * prev[0]
    ensures forall m :: 1 <= m < n ==> NextRow(prev, n)[m] == 0.5 * n as real * prev[m - 1] / m as real
  {
  }

  lemma BoundaryEntry(n: nat, prev0: real)
    requires n >= 1
    requires prev0 == Binom(n - 1, 0) as real / Pow2(n - 1) as real
    ensures 0.5 * prev0 == Binom(n, 0) as real / Pow2(n) as real
    ensures 0.5 * prev0 == Binom(n, n) as real / Pow2(n) as real
  {
    BinomDiagonal(n);
    var p := Pow2(n - 1) as real;
    assert Pow2(n) as real == 2.0 * p;
    assert 0.5 * (1.0 / p) == 1.0 / (2.0 * p);
  }

  lemma {:induction false} InteriorEntries(prev: seq<real>, row: seq<real>, n: nat)
    requires n >= 1 && |prev| >= n && |row| == n + 1
    requires forall m :: 0 <= m < n ==> prev[m] == Binom(n - 1, m) as real / Pow2(n - 1) as real
    requires forall m :: 1 <= m < n ==> row[m] == 0.5 * n as real * prev[m - 1] / m as real
    ensures forall m :: 1 <= m < n ==> row[m] == Binom(n, m) as real / Pow2(n) as real
  {
    forall m | 1 <= m < n
      ensures row[m] == Binom(n, m) as real / Pow2(n) as real
    {
      InteriorCell(n, m, prev[m - 1], row[m]);
    }
  }

  lemma InteriorCell(n: nat, m: nat, prevEntry: real, cell: real)
    requires 1 <= m < n
    requires prevEntry == Binom(n - 1, m - 1) as real / Pow2(n - 1) as real
    requires cell == 0.5 * n as real * prevEntry / m as real
    ensures cell == Binom(n, m) as real / Pow2(n) as real
  {
    InteriorEntry(n, m, prevEntry);
  }

  /** A row built by the recurrence from a closed-form row n-1 is the
      closed-form row n. */
  lemma {:induction false} RecurrenceClosedForm(prev: seq<real>, row: seq<real>, n: nat)
    requires n >= 1 && |prev| >= n && |row| == n + 1
    requires forall m :: 0 <= m < n ==> prev[m] == Binom(n - 1, m) as real / Pow2(n - 1) as real
    requires row[0] == 0.5 * prev[0] && row[n] == 0.5 * prev[0]
    requires forall m :: 1 <= m < n ==> row[m] == 0.5 * n as real * prev[m - 1] / m as real
    ensures forall m :: 0 <= m <= n ==> row[m] == Binom(n, m) as real / Pow2(n) as real
  {
    BoundaryEntry(n, prev[0]);
    InteriorEntries(prev, row, n);
  }

  lemma NextRowClosedForm(prev: seq<real>, n: nat)
    requires n >= 1 && |prev| >= n
    requires forall m :: 0 <= m < n ==> prev[m] == Binom(n - 1, m) as real / Pow2(n - 1) as real
    ensures forall m :: 0 <= m <= n ==> NextRow(prev, n)[m] == Binom(n, m) as real / Pow2(n) as real
  {
    NextRowEntries(prev, n);
    RecurrenceClosedForm(prev, NextRow(prev, n), n);
  }

  /** `hetAltDepthDistribution(N)`: N rows; row n >= 1 holds the n+1
      probabilities C(n,m)/2^n, and row 0 is [1, 1]. */
  function HetAltDepthDistribution(count: nat): (table: seq<seq<real>>)
    ensures |table| == count
    ensures count > 0 ==> table[0] == [1.0, 1.0]
    ensures forall n :: 1 <= n < count ==> |table[n]| == n + 1
    ensures forall n, m :: 1 <= n < count && 0 <= m <= n ==>
      table[n][m] == Binom(n, m) as real / Pow2(n) as real
  {
    if count == 0 then []
    else if count == 1 then [[1.0, 1.0]]
    else
      var previous := HetAltDepthDistribution(count - 1);
      var n := count - 1;
      var prev := previous[n - 1];
      NextRowClosedForm(prev, n);
      previous + [NextRow(prev, n)]
  }

  /** The sum of the first k coefficients of row n. */
  function BinomPrefixSum(n: nat, k: nat): nat {
    if k == 0 then 0 else BinomPrefixSum(n, k - 1) + Binom(n, k - 1)
  }

  lemma {:induction false} PascalPrefixSum(n: nat, k: nat)
    requires n >= 1
    ensures BinomPrefixSum(n, k + 1) == BinomPrefixSum(n - 1, k + 1) + BinomPrefixSum(n - 1, k)
    decreases k
  {
    if k > 0 {
      PascalPrefixSum(n, k - 1);
    }
  }

  /** The coefficients of row n add up to 2^n. */
  lemma {:induction false} BinomRowTotal(n: nat)
    ensures BinomPrefixSum(n, n + 1) == Pow2(n)
  {
    if n > 0 {
      PascalPrefixSum(n, n);
      BinomRowTotal(n - 1);
      BinomAbove(n - 1, n);
    }
  }

  lemma {:induction false} RowPrefixSum(row: seq<real>, n: nat, k: nat)
    requires k <= |row| == n + 1
    requires forall m :: 0 <= m <= n ==> row[m] == Binom(n, m) as real / Pow2(n) as real
    ensures RealSum(row[..k]) == BinomPrefixSum(n, k) as real / Pow2(n) as real
    decreases k
  {
    if k > 0 {
      assert row[..k][..k - 1] == row[..k - 1];
      RowPrefixSum(row, n, k - 1);
      assert RealSum(row[..k]) == RealSum(row[..k - 1]) + row[k - 1];
      DivideSum(BinomPrefixSum(n, k - 1) as real, Binom(n, k - 1) as real, Pow2(n) as real);
    }
  }

  lemma DivideSum(a: real, b: real, d: real)
    requires d > 0.0
    ensures (a + b) / d == a / d + b / d
  {
  }

  /** A closed-form row n sums to 1 and its first and last entries agree. */
  lemma {:induction false} ClosedFormRowSum(row: seq<real>, n: nat)
    requires |row| == n + 1
    requires forall m :: 0 <= m <= n ==> row[m] == Binom(n, m) as real / Pow2(n) as real
    ensures RealSum(row) == 1.0
    ensures row[0] == row[n]
  {
    RowPrefixSum(row, n, n + 1);
    BinomRowTotal(n);
    BinomDiagonal(n);
    assert row[..n + 1] == row;
  }

  /** Rows n >= 1 are distributions: they sum to 1 and their first and last
      entries agree. Row 0 sums to 2 because of its repeated element, but
      its first entry alone (the only one the sensitivity sum reads) is 1. */
  lemma {:induction false} RowsSumToOne(count: nat, n: nat)
    requires n < count
    ensures var table := HetAltDepthDistribution(count);
      && RealSum(table[n][..n + 1]) == 1.0
      && (n >= 1 ==> RealSum(table[n]) == 1.0 && table[n][0] == table[n][n])
      && (n == 0 ==> RealSum(table[n]) == 2.0)
  {
    var table := HetAltDepthDistribution(count);
    var row := table[n];
    if n == 0 {
      assert row == [1.0, 1.0];
      assert row[..1] == [1.0];
      assert RealSum([1.0]) == RealSum([]) + 1.0;
      assert [1.0, 1.0][..1] == [1.0];
    } else {
      ClosedFormRowSum(row, n);
      assert row[..n + 1] == row;
    }
  }

  /** A closed-form entry lies in [0,1]. */
  lemma {:induction false} ClosedFormEntryBounds(n: nat, m: nat)
    requires m <= n
    ensures 0.0 <= Binom(n, m) as real / Pow2(n) as real <= 1.0
  {
    BinomRowTotal(n);
    BinomPrefixSumCovers(n, m, n + 1);
    FractionBounds(Binom(n, m), Pow2(n));
  }

  lemma FractionBounds(a: nat, p: nat)
    requires 1 <= p && a <= p
    ensures 0.0 <= a as real / p as real <= 1.0
  {
    assert a as real / p as real <= p as real / p as real;
  }

  /** Every entry of the table lies in [0,1]. */
  lemma {:induction false} EntriesAreProbabilities(count: nat, n: nat, m: nat)
    requires n < count && m <= n
    ensures var table := HetAltDepthDistribution(count);
      0.0 <= table[n][m] <= 1.0
  {
    if n >= 1 {
      ClosedFormEntryBounds(n, m);
    }
  }

  lemma {:induction false} BinomPrefixSumCovers(n: nat, m: nat, k: nat)
    requires m < k
    ensures Binom(n, m) <= BinomPrefixSum(n, k)
    decreases k
  {
    if m < k - 1 {
      BinomPrefixSumCovers(n, m, k - 1);
    }
  }
}
