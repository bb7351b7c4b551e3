/**
 * The run of the bucketize procedure: read the rows in ORDER BY order and
 * the latest order-by timestamp, turn every bucket's percentile range into
 * an index interval over those rows, and record one labelled row per index
 * through the per-worker accumulator.
 */
module Bucketize {
  import opened Wrappers
  import opened PercentileRanges
  import opened IndexBounds
  import opened Dates
  import opened Accumulation

  type RowName = string

  /** An output cell: column name, value and timestamp. */
  datatype Cell = Cell(column: string, value: string, ts: Date)

  /** An output row as handed to recordRows. */
  datatype OutputRow = OutputRow(name: RowName, cells: seq<Cell>)

  /** A row delivered by the query in ORDER BY order, with the latest_timestamp of each order-by clause. */
  datatype QueryRow = QueryRow(name: RowName, orderByTimestamps: seq<Date>)

  /** The decision to put the row at `index` into the bucket named `bucket`. */
  datatype Assignment = Assignment(index: nat, bucket: string)

  /** Every order-by timestamp of the rows, row by row. */
  function AllTimestamps(rows: seq<QueryRow>): seq<Date>
  {
    if rows == [] then [] else AllTimestamps(rows[..|rows| - 1]) + rows[|rows| - 1].orderByTimestamps
  }

  /**
   * The row callback of the query (getSize): remember each row's name in
   * order and fold each valid order-by timestamp into the running maximum.
   */
  method ResolveRanks(rows: seq<QueryRow>) returns (orderedRowNames: seq<RowName>, globalMax: Date)
    ensures |orderedRowNames| == |rows|
    ensures forall i :: 0 <= i < |rows| ==> orderedRowNames[i] == rows[i].name
    ensures globalMax == LatestValid(AllTimestamps(rows))
  {
    orderedRowNames := [];
    globalMax := NegativeInfinity;
    for i := 0 to |rows|
      invariant |orderedRowNames| == i
      invariant forall k :: 0 <= k < i ==> orderedRowNames[k] == rows[k].name
      invariant globalMax == LatestValid(AllTimestamps(rows[..i]))
    {
      var clauses := rows[i].orderByTimestamps;
      ghost var seen := AllTimestamps(rows[..i]);
      assert seen + clauses[..0] == seen;
      for c := 0 to |clauses|
        invariant globalMax == LatestValid(seen + clauses[..c])
      {
        var ts := clauses[c];
        ClauseStep(seen, clauses, c);
        if ts.IsADate() {
          globalMax := SetMax(globalMax, ts.seconds);
        }
      }
      RowStep(rows, i);
      orderedRowNames := orderedRowNames + [rows[i].name];
    }
    assert rows[..|rows|] == rows;
  }

  /** One more timestamp: the running maximum takes it in exactly when it is a valid date. */
  lemma LatestValidStep(ts: seq<Date>, t: Date)
    ensures LatestValid(ts + [t]) == if t.IsADate() then SetMax(LatestValid(ts), t.seconds) else LatestValid(ts)
  {
    assert (ts + [t])[..|ts|] == ts;
  }

  /** The inner loop's step: the running maximum after clause c of the current row. */
  lemma ClauseStep(seen: seq<Date>, clauses: seq<Date>, c: nat)
    requires c < |clauses|
    ensures LatestValid(seen + clauses[..c + 1]) ==
            if clauses[c].IsADate() then SetMax(LatestValid(seen + clauses[..c]), clauses[c].seconds)
            else LatestValid(seen + clauses[..c])
  {
    assert seen + clauses[..c + 1] == (seen + clauses[..c]) + [clauses[c]];
    LatestValidStep(seen + clauses[..c], clauses[c]);
  }

  /** The outer loop's step: a row contributes its order-by timestamps after those of the rows before it. */
  lemma RowStep(rows: seq<QueryRow>, i: nat)
    requires i < |rows|
    ensures AllTimestamps(rows[..i + 1]) == AllTimestamps(rows[..i]) + rows[i].orderByTimestamps
    ensures AllTimestamps(rows[..i]) + rows[i].orderByTimestamps[..|rows[i].orderByTimestamps|] ==
            AllTimestamps(rows[..i + 1])
  {
    assert rows[..i + 1][..i] == rows[..i];
    assert rows[i].orderByTimestamps[..|rows[i].orderByTimestamps|] == rows[i].orderByTimestamps;
  }

  predicate AllWellFormed(buckets: seq<Bucket>)
  {
    forall k :: 0 <= k < |buckets| ==> WellFormed(buckets[k].range)
  }

  lemma AcceptableIsWellFormed(buckets: seq<Bucket>)
    requires Acceptable(RangesOf(buckets))
    ensures AllWellFormed(buckets)
  {
    var rs := RangesOf(buckets);
    forall k | 0 <= k < |buckets|
      ensures WellFormed(buckets[k].range)
    {
      assert rs[k] == buckets[k].range;
    }
  }

  /** Whether the row at `i` falls in the index interval of range `r`. */
  predicate InBucket(i: int, r: Range, rowCount: nat)
  {
    LowerBound(r, rowCount) <= i < HigherBound(r, rowCount)
  }

  /** The rows one bucket's parallelMap visits, one per index of its interval. */
  function BucketAssignments(b: Bucket, rowCount: nat): seq<Assignment>
    requires WellFormed(b.range)
  {
    BoundsWithinRows(b.range, rowCount);
    var lo, hi := LowerBound(b.range, rowCount), HigherBound(b.range, rowCount);
    seq(hi - lo, k requires 0 <= k < hi - lo => Assignment(lo + k, b.name))
  }

  lemma BucketAssignmentsAt(b: Bucket, rowCount: nat, k: int)
    requires WellFormed(b.range)
    requires 0 <= k < |BucketAssignments(b, rowCount)|
    ensures BucketAssignments(b, rowCount)[k].index == LowerBound(b.range, rowCount) + k
    ensures BucketAssignments(b, rowCount)[k].bucket == b.name
  {
    BoundsWithinRows(b.range, rowCount);
    var lo, hi := LowerBound(b.range, rowCount), HigherBound(b.range, rowCount);
    assert BucketAssignments(b, rowCount) == seq(hi - lo, j requires 0 <= j < hi - lo => Assignment(lo + j, b.name));
  }

  /** The assignments of all buckets, bucket by bucket in configuration order. */
  function Assignments(buckets: seq<Bucket>, rowCount: nat): seq<Assignment>
    requires AllWellFormed(buckets)
  {
    if buckets == [] then
      []
    else
      Assignments(buckets[..|buckets| - 1], rowCount) + BucketAssignments(buckets[|buckets| - 1], rowCount)
  }

  /** Every assignment names a bucket whose interval holds its index, and that index is a row. */
  ghost predicate Sound(buckets: seq<Bucket>, rowCount: nat, plan: seq<Assignment>)
  {
    forall k :: 0 <= k < |plan| ==>
      && plan[k].index < rowCount
      && exists j :: 0 <= j < |buckets| && plan[k].bucket == buckets[j].name
                     && InBucket(plan[k].index, buckets[j].range, rowCount)
  }

  /** Every index of every bucket's interval is assigned to that bucket. */
  ghost predicate Complete(buckets: seq<Bucket>, rowCount: nat, plan: seq<Assignment>)
  {
    forall j, i: nat :: 0 <= j < |buckets| && InBucket(i, buckets[j].range, rowCount) ==>
      Assignment(i, buckets[j].name) in plan
  }

  /** No row index is assigned twice. */
  ghost predicate IndicesDistinct(plan: seq<Assignment>)
  {
    forall p, q :: 0 <= p < q < |plan| ==> plan[p].index != plan[q].index
  }

  lemma {:induction false} AssignmentsSound(buckets: seq<Bucket>, rowCount: nat)
    requires AllWellFormed(buckets)
    ensures Sound(buckets, rowCount, Assignments(buckets, rowCount))
    ensures Complete(buckets, rowCount, Assignments(buckets, rowCount))
  {
    if buckets != [] {
      var n := |buckets| - 1;
      var init, last := buckets[..n], buckets[n];
      AssignmentsSound(init, rowCount);
      BoundsWithinRows(last.range, rowCount);
      var a, b := Assignments(init, rowCount), BucketAssignments(last, rowCount);
      var all := a + b;
      var lo := LowerBound(last.range, rowCount);
      forall k | 0 <= k < |all|
        ensures all[k].index < rowCount
        ensures exists j :: 0 <= j < |buckets| && all[k].bucket == buckets[j].name
                            && InBucket(all[k].index, buckets[j].range, rowCount)
      {
        if k < |a| {
          var j :| 0 <= j < |init| && a[k].bucket == init[j].name && InBucket(a[k].index, init[j].range, rowCount);
          assert buckets[j] == init[j];
        } else {
          assert all[k] == b[k - |a|] == Assignment(lo + (k - |a|), last.name);
          assert InBucket(all[k].index, buckets[n].range, rowCount);
        }
      }
      forall j, i: nat | 0 <= j < |buckets| && InBucket(i, buckets[j].range, rowCount)
        ensures Assignment(i, buckets[j].name) in all
      {
        if j < n {
          assert buckets[j] == init[j];
          assert Assignment(i, init[j].name) in a;
        } else {
          assert b[i - lo] == Assignment(i, last.name);
        }
      }
    }
  }

  /** Two different buckets of a validated configuration share no index. */
  lemma IntervalsApart(buckets: seq<Bucket>, rowCount: nat, j: int, n: int, i1: int, i2: int)
    requires Acceptable(RangesOf(buckets))
    requires 0 <= j < n < |buckets|
    requires InBucket(i1, buckets[j].range, rowCount) && InBucket(i2, buckets[n].range, rowCount)
    ensures i1 != i2
  {
    var rs := RangesOf(buckets);
    AcceptedRangesDisjointIndices(rs, rowCount);
    assert rs[j] == buckets[j].range && rs[n] == buckets[n].range;
    assert HigherBound(rs[j], rowCount) <= LowerBound(rs[n], rowCount) ||
           HigherBound(rs[n], rowCount) <= LowerBound(rs[j], rowCount);
  }

  /** A prefix of a validated configuration is validated. */
  lemma AcceptablePrefix(buckets: seq<Bucket>, n: nat)
    requires Acceptable(RangesOf(buckets)) && n <= |buckets|
    ensures Acceptable(RangesOf(buckets[..n]))
  {
    assert RangesOf(buckets[..n]) == RangesOf(buckets)[..n];
  }

  /** The last bucket's indices are none of the earlier buckets' indices. */
  lemma LastBucketApart(buckets: seq<Bucket>, rowCount: nat, n: nat)
    requires Acceptable(RangesOf(buckets)) && n == |buckets| - 1
    ensures AllWellFormed(buckets)
    ensures forall p, q :: 0 <= p < |Assignments(buckets[..n], rowCount)| &&
                           0 <= q < |BucketAssignments(buckets[n], rowCount)| ==>
              Assignments(buckets[..n], rowCount)[p].index != BucketAssignments(buckets[n], rowCount)[q].index
  {
    AcceptableIsWellFormed(buckets);
    var init, last := buckets[..n], buckets[n];
    AssignmentsSound(init, rowCount);
    BoundsWithinRows(last.range, rowCount);
    var a, b := Assignments(init, rowCount), BucketAssignments(last, rowCount);
    forall p, q | 0 <= p < |a| && 0 <= q < |b|
      ensures a[p].index != b[q].index
    {
      var j :| 0 <= j < |init| && a[p].bucket == init[j].name && InBucket(a[p].index, init[j].range, rowCount);
      assert init[j] == buckets[j];
      assert InBucket(b[q].index, last.range, rowCount);
      IntervalsApart(buckets, rowCount, j, n, a[p].index, b[q].index);
    }
  }

  /**
   * With validated ranges no row index is assigned twice: together with
   * AssignmentsSound, every index of a bucket's interval is assigned
   * exactly once, to that bucket, and no other index is assigned.
   */
  lemma {:induction false} AssignmentsDistinct(buckets: seq<Bucket>, rowCount: nat)
    requires Acceptable(RangesOf(buckets))
    ensures AllWellFormed(buckets)
    ensures IndicesDistinct(Assignments(buckets, rowCount))
  {
    AcceptableIsWellFormed(buckets);
    if buckets != [] {
      var n := |buckets| - 1;
      AcceptablePrefix(buckets, n);
      AssignmentsDistinct(buckets[..n], rowCount);
      LastBucketApart(buckets, rowCount, n);
      BucketIndicesDistinct(buckets[n], rowCount);
      JoinDistinct(Assignments(buckets[..n], rowCount), BucketAssignments(buckets[n], rowCount));
    }
  }

  lemma BucketIndicesDistinct(b: Bucket, rowCount: nat)
    requires WellFormed(b.range)
    ensures IndicesDistinct(BucketAssignments(b, rowCount))
  {
    var v := BucketAssignments(b, rowCount);
    forall p, q | 0 <= p < q < |v|
      ensures v[p].index != v[q].index
    {
      BucketAssignmentsAt(b, rowCount, p);
      BucketAssignmentsAt(b, rowCount, q);
    }
  }

  lemma JoinDistinct(a: seq<Assignment>, b: seq<Assignment>)
    requires IndicesDistinct(a) && IndicesDistinct(b)
    requires forall p, q :: 0 <= p < |a| && 0 <= q < |b| ==> a[p].index != b[q].index
    ensures IndicesDistinct(a + b)
  {
    var all := a + b;
    forall p, q | 0 <= p < q < |all|
      ensures all[p].index != all[q].index
    {
      if q < |a| {
        assert all[p] == a[p] && all[q] == a[q];
      } else if p >= |a| {
        assert all[p] == b[p - |a|] && all[q] == b[q - |a|];
      } else {
        assert all[p] == a[p] && all[q] == b[q - |a|];
      }
    }
  }

  /** The sum of the widths of the buckets' index intervals. */
  function TotalWidth(buckets: seq<Bucket>, rowCount: nat): int
    requires AllWellFormed(buckets)
  {
    if buckets == [] then
      0
    else
      var r := buckets[|buckets| - 1].range;
      TotalWidth(buckets[..|buckets| - 1], rowCount) + HigherBound(r, rowCount) - LowerBound(r, rowCount)
  }

  /** As many rows are assigned as the intervals are wide in total; an empty interval assigns none. */
  lemma {:induction false} AssignmentCount(buckets: seq<Bucket>, rowCount: nat)
    requires AllWellFormed(buckets)
    ensures |Assignments(buckets, rowCount)| == TotalWidth(buckets, rowCount)
  {
    if buckets != [] {
      var last := buckets[|buckets| - 1];
      AssignmentCount(buckets[..|buckets| - 1], rowCount);
      BoundsWithinRows(last.range, rowCount);
      assert |BucketAssignments(last, rowCount)| == HigherBound(last.range, rowCount) - LowerBound(last.range, rowCount);
    }
  }

  /** The output row for one assignment: the row's name and a single "bucket" cell. */
  function RowOf(a: Assignment, orderedRowNames: seq<RowName>, ts: Date): OutputRow
    requires a.index < |orderedRowNames|
  {
    OutputRow(orderedRowNames[a.index], [Cell("bucket", a.bucket, ts)])
  }

  function RowsOf(plan: seq<Assignment>, orderedRowNames: seq<RowName>, ts: Date): seq<OutputRow>
    requires forall k :: 0 <= k < |plan| ==> plan[k].index < |orderedRowNames|
  {
    seq(|plan|, k requires 0 <= k < |plan| => RowOf(plan[k], orderedRowNames, ts))
  }

  /**
   * The rows a run must record for a validated configuration: one per
   * assignment, each with a single "bucket" cell that names a configured
   * bucket and carries the run's one timestamp.
   */
  function ExpectedRows(buckets: seq<Bucket>, orderedRowNames: seq<RowName>, ts: Date): (rows: seq<OutputRow>)
    requires Acceptable(RangesOf(buckets))
    ensures forall k :: 0 <= k < |rows| ==>
      && rows[k].name in orderedRowNames
      && |rows[k].cells| == 1 && rows[k].cells[0].column == "bucket" && rows[k].cells[0].ts == ts
      && exists j :: 0 <= j < |buckets| && rows[k].cells[0].value == buckets[j].name
  {
    AcceptableIsWellFormed(buckets);
    AssignmentsSound(buckets, |orderedRowNames|);
    RowsOf(Assignments(buckets, |orderedRowNames|), orderedRowNames, ts)
  }

  lemma RowsOfJoin(a: seq<Assignment>, b: seq<Assignment>, orderedRowNames: seq<RowName>, ts: Date)
    requires forall k :: 0 <= k < |a| ==> a[k].index < |orderedRowNames|
    requires forall k :: 0 <= k < |b| ==> b[k].index < |orderedRowNames|
    ensures RowsOf(a + b, orderedRowNames, ts) == RowsOf(a, orderedRowNames, ts) + RowsOf(b, orderedRowNames, ts)
  {
  }

  /**
   * parallelMap over one bucket's interval with applyFct, run
   * sequentially: each index appends the row's name with the bucket's
   * cell, through the worker `workerFor` picks for it.
   */
  method FillBucket(accum: Accumulator<OutputRow>, bucket: Bucket, orderedRowNames: seq<RowName>,
                    globalMax: Date, workerFor: nat -> nat)
    requires accum.Valid() && |accum.buffers| > 0
    requires WellFormed(bucket.range)
    modifies accum
    ensures accum.Valid() && |accum.buffers| == |old(accum.buffers)|
    ensures forall k :: 0 <= k < |BucketAssignments(bucket, |orderedRowNames|)| ==>
              BucketAssignments(bucket, |orderedRowNames|)[k].index < |orderedRowNames|
    ensures accum.appended == old(accum.appended)
              + RowsOf(BucketAssignments(bucket, |orderedRowNames|), orderedRowNames, globalMax)
  {
    var rowCount := |orderedRowNames|;
    var workers := |accum.buffers|;
    var rowValue := [Cell("bucket", bucket.name, globalMax)];
    var lowerBound := LowerBound(bucket.range, rowCount);
    var higherBound := HigherBound(bucket.range, rowCount);
    BoundsWithinRows(bucket.range, rowCount);
    assert higherBound <= rowCount;
    ghost var visiting := BucketAssignments(bucket, rowCount);
    for i := lowerBound to higherBound
      invariant accum.Valid() && |accum.buffers| == workers
      invariant accum.appended == old(accum.appended) + RowsOf(visiting[..i - lowerBound], orderedRowNames, globalMax)
    {
      BucketAssignmentsAt(bucket, rowCount, i - lowerBound);
      RowsOfStep(visiting, i - lowerBound, orderedRowNames, globalMax);
      accum.Append(workerFor(i) % workers, OutputRow(orderedRowNames[i], rowValue));
    }
    assert visiting[..higherBound - lowerBound] == visiting;
  }

  /** The rows of a plan's first j + 1 assignments: those of the first j, then the row of assignment j. */
  lemma RowsOfStep(plan: seq<Assignment>, j: nat, orderedRowNames: seq<RowName>, ts: Date)
    requires j < |plan|
    requires forall k :: 0 <= k < |plan| ==> plan[k].index < |orderedRowNames|
    ensures RowsOf(plan[..j + 1], orderedRowNames, ts) == RowsOf(plan[..j], orderedRowNames, ts) + [RowOf(plan[j], orderedRowNames, ts)]
  {
    assert plan[..j + 1] == plan[..j] + [plan[j]];
    RowsOfJoin(plan[..j], [plan[j]], orderedRowNames, ts);
  }

  /**
   * The bucket loop of `run` and the final drain. What is recorded is
   * exactly the expected rows, in batches of at most FlushThreshold rows,
   * every cell carrying the same timestamp.
   */
  method Run(buckets: seq<Bucket>, orderedRowNames: seq<RowName>, globalMax: Date,
             workers: nat, workerFor: nat -> nat)
    returns (recorded: seq<seq<OutputRow>>)
    requires Acceptable(RangesOf(buckets))
    requires workers > 0
    ensures multiset(Concat(recorded)) == multiset(ExpectedRows(buckets, orderedRowNames, globalMax))
    ensures forall k :: 0 <= k < |recorded| ==> |recorded[k]| <= FlushThreshold
    ensures forall row :: row in Concat(recorded) ==>
              |row.cells| == 1 && row.cells[0].column == "bucket" && row.cells[0].ts == globalMax
  {
    var rowCount := |orderedRowNames|;
    AcceptableIsWellFormed(buckets);
    var accum := new Accumulator<OutputRow>(workers);
    for j := 0 to |buckets|
      invariant accum.Valid() && |accum.buffers| == workers
      invariant forall k :: 0 <= k < |Assignments(buckets[..j], rowCount)| ==>
                  Assignments(buckets[..j], rowCount)[k].index < rowCount
      invariant accum.appended == RowsOf(Assignments(buckets[..j], rowCount), orderedRowNames, globalMax)
    {
      FillBucket(accum, buckets[j], orderedRowNames, globalMax, workerFor);
      assert buckets[..j + 1][..j] == buckets[..j];
      RowsOfJoin(Assignments(buckets[..j], rowCount), BucketAssignments(buckets[j], rowCount), orderedRowNames, globalMax);
    }
    assert buckets[..|buckets|] == buckets;
    accum.Drain();
    recorded := accum.recorded;
    forall row | row in Concat(recorded)
      ensures |row.cells| == 1 && row.cells[0].column == "bucket" && row.cells[0].ts == globalMax
    {
      assert row in multiset(ExpectedRows(buckets, orderedRowNames, globalMax));
    }
  }

  /** The names of the query's rows, in order. */
  function Names(rows: seq<QueryRow>): seq<RowName>
  {
    seq(|rows|, i requires 0 <= i < |rows| => rows[i].name)
  }

  /**
   * The whole procedure: the configuration is validated first (a
   * refused configuration records nothing), then the query's rows are
   * read and the buckets are filled.
   */
  method BucketizeProcedure(buckets: seq<Bucket>, rows: seq<QueryRow>, workers: nat, workerFor: nat -> nat)
    returns (result: Result<seq<seq<OutputRow>>, RangeError>)
    requires workers > 0
    ensures result.Failure? <==> !Acceptable(RangesOf(buckets))
    ensures result.Failure? ==> Explains(result.error, RangesOf(buckets))
    ensures result.Failure? ==> FirstOffender(SortByStart(RangesOf(buckets)), result.error)
    ensures result.Success? ==>
              && Acceptable(RangesOf(buckets))
              && multiset(Concat(result.value))
                 == multiset(ExpectedRows(buckets, Names(rows), LatestValid(AllTimestamps(rows))))
  {
    var validation := Validate(buckets);
    if validation.Fail? {
      return Failure(validation.error);
    }
    var orderedRowNames, globalMax := ResolveRanks(rows);
    assert orderedRowNames == Names(rows);
    var recorded := Run(buckets, orderedRowNames, globalMax, workers, workerFor);
    return Success(recorded);
  }
}
