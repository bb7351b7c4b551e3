/**
 * Points in time as the bucketize procedure sees them, and the running
 * maximum it keeps over the order-by timestamps of the rows it reads.
 */
module Dates {

  /** A timestamp: a point in time, an infinity, or a value that is not a date at all. */
  datatype Date = NegativeInfinity | Instant(seconds: real) | PositiveInfinity | NotADate
  {
    /** Only a finite point in time counts as a date. */
    predicate IsADate()
    {
      Instant?
    }
  }

  /**
   * `setMax` of a running maximum with a valid date: the later of the two,
   * or the date itself when the maximum is not yet a date.
   */
  function SetMax(acc: Date, t: real): (m: Date)
    ensures m.Instant? && t <= m.seconds
    ensures acc.Instant? ==> acc.seconds <= m.seconds
    ensures m.seconds == t || (acc.Instant? && m.seconds == acc.seconds)
  {
    match acc
    case Instant(s) => Instant(if t > s then t else s)
    case _ => Instant(t)
  }

  /**
   * The running maximum over a sequence of timestamps, starting at
   * negative infinity and folding in only valid dates. It is negative
   * infinity exactly when no valid date was seen, and otherwise one of
   * the dates seen, no earlier than any of them.
   */
  function LatestValid(ts: seq<Date>): (m: Date)
    ensures m.NegativeInfinity? || m.Instant?
    ensures m.NegativeInfinity? <==> forall k :: 0 <= k < |ts| ==> !ts[k].IsADate()
    ensures m.Instant? ==> m in ts
    ensures m.Instant? ==> forall k :: 0 <= k < |ts| && ts[k].IsADate() ==> ts[k].seconds <= m.seconds
  {
    if ts == [] then
      NegativeInfinity
    else
      var acc := LatestValid(ts[..|ts| - 1]);
      var t := ts[|ts| - 1];
      if t.IsADate() then SetMax(acc, t.seconds) else acc
  }

  /** The maximum only grows as timestamps are added. */
  lemma LatestValidGrows(ts: seq<Date>, more: seq<Date>)
    requires LatestValid(ts).Instant?
    ensures LatestValid(ts + more).Instant?
    ensures LatestValid(ts).seconds <= LatestValid(ts + more).seconds
  {
    var k :| 0 <= k < |ts| && ts[k] == LatestValid(ts);
    assert (ts + more)[k] == ts[k];
  }
}
