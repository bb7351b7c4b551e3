/**
 * The conversion of a percentile range into a half-open interval of row
 * indices [LowerBound, HigherBound) over the ordered rows of a run.
 */
module IndexBounds {
  import opened PercentileRanges

  /** The C++ conversion of a real value to int64_t: truncation toward zero. */
  function Truncate(x: real): (n: int)
    ensures 0.0 <= x ==> n as real <= x < n as real + 1.0
    ensures x < 0.0 ==> n as real - 1.0 < x <= n as real
  {
    if x >= 0.0 then x.Floor else -((-x).Floor)
  }

  /** A percentage of the row count, as the float expression `p / 100 * rowCount`. */
  function Scaled(p: real, rowCount: nat): real
  {
    p / 100.0 * rowCount as real
  }

  /**
   * First index of a bucket. The guard tests the range's END against 0,
   * as the code has it; after validation it never holds.
   */
  function LowerBound(r: Range, rowCount: nat): (lo: int)
    ensures 0.0 <= r.start <= 100.0 ==> 0 <= lo <= rowCount
  {
    if r.end == 0.0 then
      0
    else
      var x := Scaled(r.start, rowCount);
      assert 0.0 <= r.start <= 100.0 ==> 0.0 <= x <= rowCount as real by {
        if 0.0 <= r.start <= 100.0 {
          ScaleMonotone(r.start, 100.0, rowCount);
        }
      }
      Truncate(x)
  }

  /** One past the last index of a bucket; a range ending at 100 reaches the last row exactly. */
  function HigherBound(r: Range, rowCount: nat): (hi: int)
    ensures 0.0 <= r.end <= 100.0 ==> 0 <= hi <= rowCount
  {
    if r.end == 100.0 then
      rowCount
    else
      var y := Scaled(r.end, rowCount);
      assert 0.0 <= r.end <= 100.0 ==> 0.0 <= y <= rowCount as real by {
        if 0.0 <= r.end <= 100.0 {
          ScaleMonotone(r.end, 100.0, rowCount);
        }
      }
      Truncate(y)
  }

  /** Scaling a percentage by the row count is monotone and stays within the row count. */
  lemma ScaleMonotone(p: real, q: real, rowCount: nat)
    requires 0.0 <= p <= q <= 100.0
    ensures 0.0 <= Scaled(p, rowCount) <= Scaled(q, rowCount) <= rowCount as real
  {
    var n := rowCount as real;
    assert (q / 100.0 - p / 100.0) * n >= 0.0;
    assert (1.0 - q / 100.0) * n >= 0.0;
  }

  /** Truncation of non-negative values is monotone. */
  lemma TruncateMonotone(x: real, y: real)
    requires 0.0 <= x <= y
    ensures 0 <= Truncate(x) <= Truncate(y)
  {
  }

  /** The bound check of line 199, and more: a validated range gives 0 <= lower <= higher <= rowCount. */
  lemma BoundsWithinRows(r: Range, rowCount: nat)
    requires WellFormed(r)
    ensures 0 <= LowerBound(r, rowCount) <= HigherBound(r, rowCount) <= rowCount
  {
    ScaleMonotone(r.start, r.end, rowCount);
    TruncateMonotone(Scaled(r.start, rowCount), Scaled(r.end, rowCount));
    TruncateMonotone(Scaled(r.end, rowCount), rowCount as real);
    assert Truncate(rowCount as real) == rowCount;
  }

  /** The `end == 0` guard is dead on validated ranges: the lower bound is always the truncated product. */
  lemma LowerGuardNeverFires(r: Range, rowCount: nat)
    requires WellFormed(r)
    ensures r.end != 0.0
    ensures LowerBound(r, rowCount) == Truncate(Scaled(r.start, rowCount))
  {
  }

  /** The extremes: start 0 gives index 0 and end 100 gives rowCount, for every row count. */
  lemma ExtremesAreExact(r: Range, rowCount: nat)
    ensures r.start == 0.0 ==> LowerBound(r, rowCount) == 0
    ensures r.end == 100.0 ==> HigherBound(r, rowCount) == rowCount
  {
  }

  /** A range that ends where (or before) another starts gets an index interval that ends where (or before) the other's starts. */
  lemma SeparatedRangesSeparateIndices(r1: Range, r2: Range, rowCount: nat)
    requires WellFormed(r1) && WellFormed(r2)
    requires r1.end <= r2.start
    ensures HigherBound(r1, rowCount) <= LowerBound(r2, rowCount)
  {
    ScaleMonotone(r1.end, r2.start, rowCount);
    TruncateMonotone(Scaled(r1.end, rowCount), Scaled(r2.start, rowCount));
  }

  /** Validated ranges map to pairwise disjoint half-open index intervals: no index falls in two buckets. */
  lemma AcceptedRangesDisjointIndices(rs: seq<Range>, rowCount: nat)
    requires Acceptable(rs)
    ensures forall i, j :: 0 <= i < j < |rs| ==>
              HigherBound(rs[i], rowCount) <= LowerBound(rs[j], rowCount) ||
              HigherBound(rs[j], rowCount) <= LowerBound(rs[i], rowCount)
  {
    forall i, j | 0 <= i < j < |rs|
      ensures HigherBound(rs[i], rowCount) <= LowerBound(rs[j], rowCount) ||
              HigherBound(rs[j], rowCount) <= LowerBound(rs[i], rowCount)
    {
      if rs[i].end <= rs[j].start {
        SeparatedRangesSeparateIndices(rs[i], rs[j], rowCount);
      } else {
        SeparatedRangesSeparateIndices(rs[j], rs[i], rowCount);
      }
    }
  }

  /** Comparing a scaled percentage with a value is comparing the percentage with that value's share of the rows. */
  lemma ScaleCompare(p: real, m: real, rowCount: nat)
    requires 0 < rowCount
    ensures Scaled(p, rowCount) < m <==> p / 100.0 < m / rowCount as real
    ensures m <= Scaled(p, rowCount) <==> m / rowCount as real <= p / 100.0
  {
    var n := rowCount as real;
    var d := p / 100.0 - m / n;
    assert Scaled(p, rowCount) - m == d * n;
    if d < 0.0 {
      assert d * n < 0.0;
    } else if d > 0.0 {
      assert d * n > 0.0;
    }
  }

  /**
   * The documented meaning of a bucket: with rows ranked 1 to rowCount,
   * the row at index i lies in the bucket of [start, end] exactly when
   * start% < rank / rowCount <= end%.
   */
  lemma RankCriterion(r: Range, rowCount: nat, i: nat)
    requires WellFormed(r) && 0 < rowCount && i < rowCount
    ensures (LowerBound(r, rowCount) <= i < HigherBound(r, rowCount)) <==>
            (r.start / 100.0 < (i + 1) as real / rowCount as real <= r.end / 100.0)
  {
    var n := rowCount as real;
    var rank := (i + 1) as real;
    ScaleCompare(r.start, rank, rowCount);
    assert LowerBound(r, rowCount) <= i <==> r.start / 100.0 < rank / n;
    if r.end == 100.0 {
      assert rank / n * n == rank;
      assert rank / n <= 1.0;
    } else {
      ScaleCompare(r.end, rank, rowCount);
      assert i < HigherBound(r, rowCount) <==> rank / n <= r.end / 100.0;
    }
  }

  /** The documented example: [0, 50] and [50, 100] over 10 rows give [0, 5) and [5, 10). */
  lemma HalvesOfTenRows()
    ensures LowerBound(Range(0.0, 50.0), 10) == 0 && HigherBound(Range(0.0, 50.0), 10) == 5
    ensures LowerBound(Range(50.0, 100.0), 10) == 5 && HigherBound(Range(50.0, 100.0), 10) == 10
  {
    assert Scaled(50.0, 10) == 5.0;
  }
}
