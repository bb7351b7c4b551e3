/**
 * The percentile-range validator of the bucketize procedure: the bucket
 * ranges of a configuration are sorted by their start and walked in that
 * order, rejecting a range that is out of [0, 100], empty, or that starts
 * before the previous range ends.
 */
module PercentileRanges {
  import opened Wrappers

  /** A bucket's percentile range [start, end], in percent. */
  datatype Range = Range(start: real, end: real)

  /** One entry of percentileBuckets: the bucket's label and its range. */
  datatype Bucket = Bucket(name: string, range: Range)

  /** Why a configuration was refused; each kind carries the offending range(s). */
  datatype RangeError =
    | NegativeStart(range: Range)
    | EndAbove100(range: Range)
    | NotIncreasing(range: Range)
    | Overlapping(previous: Range, current: Range)

  /** The ranges of a configuration, in configuration order. */
  function RangesOf(buckets: seq<Bucket>): seq<Range>
  {
    seq(|buckets|, i requires 0 <= i < |buckets| => buckets[i].range)
  }

  predicate WellFormed(r: Range)
  {
    0.0 <= r.start && r.end <= 100.0 && r.start < r.end
  }

  /** Two ranges that may share a boundary value but no more. */
  predicate Disjoint(a: Range, b: Range)
  {
    a.end <= b.start || b.end <= a.start
  }

  /**
   * The order-free meaning of a valid configuration: every range is
   * well formed and no two (distinct positions) overlap.
   */
  predicate Acceptable(rs: seq<Range>)
  {
    && (forall i :: 0 <= i < |rs| ==> WellFormed(rs[i]))
    && (forall i, j :: 0 <= i < j < |rs| ==> Disjoint(rs[i], rs[j]))
  }

  predicate SortedByStart(rs: seq<Range>)
  {
    forall i, j :: 0 <= i < j < |rs| ==> rs[i].start <= rs[j].start
  }

  /** The validator's walk succeeds on consecutive pairs: each range starts at or after the previous end. */
  predicate Chained(rs: seq<Range>)
  {
    forall k :: 0 < k < |rs| ==> rs[k - 1].end <= rs[k].start
  }

  /** What an error says about the ranges it was raised for. */
  predicate Explains(e: RangeError, rs: seq<Range>)
  {
    match e
    case NegativeStart(r) => r in multiset(rs) && r.start < 0.0
    case EndAbove100(r) => r in multiset(rs) && 0.0 <= r.start && r.end > 100.0
    case NotIncreasing(r) => r in multiset(rs) && 0.0 <= r.start && r.end <= 100.0 && r.start >= r.end
    case Overlapping(p, c) =>
      && multiset{p, c} <= multiset(rs)
      && WellFormed(p) && WellFormed(c)
      && p.start <= c.start < p.end
  }

  /** The range an error is raised for: for an overlap, the later of the two. */
  function Culprit(e: RangeError): Range
  {
    match e
    case NegativeStart(r) => r
    case EndAbove100(r) => r
    case NotIncreasing(r) => r
    case Overlapping(_, c) => c
  }

  /**
   * The error names the first range of the walk that cannot join the
   * ranges before it: those before it are acceptable, and with it they
   * are not.
   */
  predicate FirstOffender(sorted: seq<Range>, e: RangeError)
  {
    exists i :: 0 <= i < |sorted| && sorted[i] == Culprit(e)
      && Acceptable(sorted[..i]) && !Acceptable(sorted[..i + 1])
  }

  /** Insertion of one range into a list sorted by start. */
  function InsertByStart(r: Range, rs: seq<Range>): (t: seq<Range>)
    requires SortedByStart(rs)
    ensures SortedByStart(t)
    ensures multiset(t) == multiset(rs) + multiset{r}
    ensures forall k :: 0 <= k < |t| ==> t[k] == r || t[k] in rs
  {
    if rs == [] || r.start <= rs[0].start then
      PrependSorted(r, rs);
      [r] + rs
    else
      assert rs == [rs[0]] + rs[1..];
      var rest := InsertByStart(r, rs[1..]);
      HeadStartsFirst(rs, r, rest);
      PrependSorted(rs[0], rest);
      [rs[0]] + rest
  }

  /** A range that starts no later than any range of a sorted list can go in front of it. */
  lemma PrependSorted(x: Range, t: seq<Range>)
    requires SortedByStart(t)
    requires forall k :: 0 <= k < |t| ==> x.start <= t[k].start
    ensures SortedByStart([x] + t)
  {
    forall i, j | 0 <= i < j < |[x] + t|
      ensures ([x] + t)[i].start <= ([x] + t)[j].start
    {
      if i > 0 {
        assert ([x] + t)[i] == t[i - 1];
      }
      assert ([x] + t)[j] == t[j - 1];
    }
  }

  /** The head of a sorted list starts no later than a later range and anything else in the list. */
  lemma HeadStartsFirst(rs: seq<Range>, r: Range, rest: seq<Range>)
    requires SortedByStart(rs) && |rs| > 0 && rs[0].start < r.start
    requires forall k :: 0 <= k < |rest| ==> rest[k] == r || rest[k] in rs[1..]
    ensures forall k :: 0 <= k < |rest| ==> rs[0].start <= rest[k].start
  {
    forall k | 0 <= k < |rest|
      ensures rs[0].start <= rest[k].start
    {
      if rest[k] != r {
        var m :| 0 <= m < |rs[1..]| && rs[1..][m] == rest[k];
        assert rs[m + 1] == rest[k];
      }
    }
  }

  /** The sort by start on line 75; any order among equal starts would do. */
  function SortByStart(rs: seq<Range>): (t: seq<Range>)
    ensures SortedByStart(t)
    ensures multiset(t) == multiset(rs)
  {
    if rs == [] then
      []
    else
      assert rs == [rs[0]] + rs[1..];
      InsertByStart(rs[0], SortByStart(rs[1..]))
  }

  /**
   * The walk over the sorted ranges with `last` starting at (-1, -1).
   * It accepts exactly the acceptable configurations, whatever order the
   * sort left ranges with equal starts in.
   */
  method CheckSorted(sorted: seq<Range>) returns (outcome: Outcome<RangeError>)
    requires SortedByStart(sorted)
    ensures outcome.Pass? <==> Acceptable(sorted)
    ensures outcome.Fail? ==> Explains(outcome.error, sorted)
    ensures outcome.Fail? ==> FirstOffender(sorted, outcome.error)
  {
    var last := Range(-1.0, -1.0);
    var i := 0;
    while i < |sorted|
      invariant 0 <= i <= |sorted|
      invariant forall k :: 0 <= k < i ==> WellFormed(sorted[k])
      invariant forall k :: 0 < k < i ==> sorted[k - 1].end <= sorted[k].start
      invariant last == if i == 0 then Range(-1.0, -1.0) else sorted[i - 1]
    {
      var range := sorted[i];
      PrefixAcceptable(sorted, i);
      if range.start < 0.0 {
        return Fail(NegativeStart(range));
      }
      if range.end > 100.0 {
        return Fail(EndAbove100(range));
      }
      if range.start >= range.end {
        return Fail(NotIncreasing(range));
      }
      if range.start < last.end {
        assert !Disjoint(sorted[i - 1], sorted[i]);
        assert sorted[..i + 1][i - 1] == sorted[i - 1];
        NeighboursInMultiset(sorted, i);
        return Fail(Overlapping(last, range));
      }
      last := range;
      i := i + 1;
    }
    ChainedIsAcceptable(sorted);
    return Pass;
  }

  /**
   * onPostValidate: collect the ranges, sort them by start and walk them.
   * Acceptance depends only on the multiset of ranges.
   */
  method Validate(buckets: seq<Bucket>) returns (outcome: Outcome<RangeError>)
    ensures outcome.Pass? <==> Acceptable(RangesOf(buckets))
    ensures outcome.Fail? ==> Explains(outcome.error, RangesOf(buckets))
    ensures outcome.Fail? ==> FirstOffender(SortByStart(RangesOf(buckets)), outcome.error)
  {
    var ranges := RangesOf(buckets);
    var sorted := SortByStart(ranges);
    outcome := CheckSorted(sorted);
    if Acceptable(sorted) {
      AcceptablePermutation(sorted, ranges);
    }
    if Acceptable(ranges) {
      AcceptablePermutation(ranges, sorted);
    }
  }

  lemma NeighboursInMultiset<T>(s: seq<T>, i: int)
    requires 0 < i < |s|
    ensures multiset{s[i - 1], s[i]} <= multiset(s)
  {
    assert s == s[..i - 1] + [s[i - 1], s[i]] + s[i + 1..];
  }

  /** Along a chain of well-formed ranges, any earlier range ends before any later one starts. */
  lemma {:induction false} ChainGap(rs: seq<Range>, i: int, j: int)
    requires forall k :: 0 <= k < |rs| ==> WellFormed(rs[k])
    requires Chained(rs)
    requires 0 <= i < j < |rs|
    ensures rs[i].end <= rs[j].start
  {
    if j > i + 1 {
      ChainGap(rs, i, j - 1);
    }
  }

  /** The walk's prefix is acceptable, and the next range is the last of the one-longer prefix. */
  lemma PrefixAcceptable(sorted: seq<Range>, i: nat)
    requires i < |sorted|
    requires forall k :: 0 <= k < i ==> WellFormed(sorted[k])
    requires forall k :: 0 < k < i ==> sorted[k - 1].end <= sorted[k].start
    ensures Acceptable(sorted[..i])
    ensures sorted[..i + 1][i] == sorted[i]
    ensures !WellFormed(sorted[i]) ==> !Acceptable(sorted[..i + 1])
  {
    ChainedIsAcceptable(sorted[..i]);
  }

  lemma ChainedIsAcceptable(rs: seq<Range>)
    requires forall k :: 0 <= k < |rs| ==> WellFormed(rs[k])
    requires Chained(rs)
    ensures Acceptable(rs)
  {
    forall i, j | 0 <= i < j < |rs|
      ensures Disjoint(rs[i], rs[j])
    {
      ChainGap(rs, i, j);
    }
  }

  /** Two equal elements at distinct positions occur at least twice in the multiset. */
  lemma RepeatedCountsTwice<T>(s: seq<T>, i: int, j: int)
    requires 0 <= i < j < |s| && s[i] == s[j]
    ensures multiset(s)[s[i]] >= 2
  {
    assert s == s[..j] + s[j..];
    assert s[i] in s[..j];
    assert s[j] in s[j..];
    assert multiset(s) == multiset(s[..j]) + multiset(s[j..]);
  }

  /** A sequence without repeated elements holds each value at most once. */
  lemma {:induction false} DistinctCountsOnce<T>(s: seq<T>, x: T)
    requires forall i, j :: 0 <= i < j < |s| ==> s[i] != s[j]
    ensures multiset(s)[x] <= 1
  {
    if s != [] {
      assert s == [s[0]] + s[1..];
      DistinctCountsOnce(s[1..], x);
      if x == s[0] {
        assert x !in s[1..];
      }
    }
  }

  /** Acceptance is invariant under reordering: it depends on the multiset of ranges only. */
  lemma AcceptablePermutation(a: seq<Range>, b: seq<Range>)
    requires multiset(a) == multiset(b)
    requires Acceptable(a)
    ensures Acceptable(b)
  {
    forall k | 0 <= k < |b|
      ensures WellFormed(b[k])
    {
      assert b[k] in multiset(a);
    }
    forall i, j | 0 <= i < j < |b|
      ensures Disjoint(b[i], b[j])
    {
      if b[i] == b[j] {
        RepeatedCountsTwice(b, i, j);
        assert forall p, q :: 0 <= p < q < |a| ==> a[p] != a[q];
        DistinctCountsOnce(a, b[i]);
        assert false;
      }
      assert b[i] in multiset(a) && b[j] in multiset(a);
      var p :| 0 <= p < |a| && a[p] == b[i];
      var q :| 0 <= q < |a| && a[q] == b[j];
      if p < q {
        assert Disjoint(a[p], a[q]);
      } else {
        assert Disjoint(a[q], a[p]);
      }
    }
  }

  /** The buckets' labels play no part: two configurations with the same ranges in any order agree. */
  lemma AcceptanceIgnoresLabelsAndOrder(c1: seq<Bucket>, c2: seq<Bucket>)
    requires multiset(RangesOf(c1)) == multiset(RangesOf(c2))
    ensures Acceptable(RangesOf(c1)) <==> Acceptable(RangesOf(c2))
  {
    if Acceptable(RangesOf(c1)) {
      AcceptablePermutation(RangesOf(c1), RangesOf(c2));
    }
    if Acceptable(RangesOf(c2)) {
      AcceptablePermutation(RangesOf(c2), RangesOf(c1));
    }
  }

  /** Any single bad range refuses the whole configuration. */
  lemma BadRangeRefused(rs: seq<Range>, r: Range)
    requires r in rs
    requires r.start < 0.0 || r.end > 100.0 || r.start >= r.end
    ensures !Acceptable(rs)
  {
    var k :| 0 <= k < |rs| && rs[k] == r;
    assert !WellFormed(rs[k]);
  }

  /** Ranges may share a boundary: [0, 50] and [50, 100] are accepted. */
  lemma SharedBoundaryAccepted()
    ensures Acceptable([Range(0.0, 50.0), Range(50.0, 100.0)])
  {
  }

  /** Overlap is refused in either order, e.g. [0, 60] with [50, 100]. */
  lemma OverlapRefused(a: Range, b: Range)
    requires WellFormed(a) && WellFormed(b)
    requires a.start <= b.start < a.end
    ensures !Acceptable([a, b]) && !Acceptable([b, a])
  {
    var ab, ba := [a, b], [b, a];
    assert !Disjoint(ab[0], ab[1]);
    assert !Disjoint(ba[0], ba[1]);
  }

  /**
   * Of two bad ranges the walk reports the earlier one in sorted order:
   * with [-5, 10] and [20, 200], the negative start, not the end above 100.
   */
  lemma EarlierBadRangeReported()
    ensures FirstOffender([Range(-5.0, 10.0), Range(20.0, 200.0)], NegativeStart(Range(-5.0, 10.0)))
    ensures !FirstOffender([Range(-5.0, 10.0), Range(20.0, 200.0)], EndAbove100(Range(20.0, 200.0)))
  {
    var rs := [Range(-5.0, 10.0), Range(20.0, 200.0)];
    assert rs[..0] == [] && rs[..1] == [rs[0]];
    assert !WellFormed(rs[..1][0]);
    assert !WellFormed(rs[..2][0]);
  }
}
