/**
 * The per-worker row buffers of the bucketize procedure: each worker
 * appends to its own buffer, hands the buffer to the output dataset in
 * one batch once it holds FlushThreshold rows, and every buffer is handed
 * over once more at the end of the run.
 */
module Accumulation {

  /** The buffer size at which a worker records its rows and starts over. */
  const FlushThreshold: nat := 1024

  /** The concatenation of a sequence of batches, in order. */
  function Concat<T>(batches: seq<seq<T>>): seq<T>
  {
    if batches == [] then [] else Concat(batches[..|batches| - 1]) + batches[|batches| - 1]
  }

  lemma ConcatAppendOne<T>(batches: seq<seq<T>>, b: seq<T>)
    ensures Concat(batches + [b]) == Concat(batches) + b
  {
    assert (batches + [b])[..|batches|] == batches;
  }

  lemma {:induction false} ConcatJoin<T>(a: seq<seq<T>>, b: seq<seq<T>>)
    ensures Concat(a + b) == Concat(a) + Concat(b)
  {
    if b != [] {
      var front := b[..|b| - 1];
      assert a + b == (a + front) + [b[|b| - 1]];
      ConcatAppendOne(a + front, b[|b| - 1]);
      ConcatJoin(a, front);
      ConcatAppendOne(front, b[|b| - 1]);
      assert b == front + [b[|b| - 1]];
    } else {
      assert a + b == a;
    }
  }

  /** The rows of all batches are those of one batch plus those of the others. */
  lemma {:induction false} ConcatSplit<T>(batches: seq<seq<T>>, w: nat)
    requires w < |batches|
    ensures multiset(Concat(batches)) == multiset(Concat(batches[w := []])) + multiset(batches[w])
  {
    var n := |batches| - 1;
    var front := batches[..n];
    assert batches == front + [batches[n]];
    ConcatAppendOne(front, batches[n]);
    if w == n {
      assert batches[w := []] == front + [[]];
      ConcatAppendOne(front, []);
    } else {
      assert batches[w := []] == front[w := []] + [batches[n]];
      ConcatAppendOne(front[w := []], batches[n]);
      ConcatSplit(front, w);
    }
  }

  lemma {:induction false} ConcatOfEmpties<T>(batches: seq<seq<T>>)
    requires forall k :: 0 <= k < |batches| ==> batches[k] == []
    ensures Concat(batches) == []
  {
    if batches != [] {
      ConcatOfEmpties(batches[..|batches| - 1]);
    }
  }

  /** A full buffer that is recorded and cleared keeps the account of recorded plus buffered rows. */
  lemma FlushAccounting<T>(recorded: seq<seq<T>>, buffers: seq<seq<T>>, appended: seq<T>, w: nat, row: T)
    requires w < |buffers|
    requires multiset(Concat(recorded)) + multiset(Concat(buffers)) == multiset(appended)
    ensures multiset(Concat(recorded + [buffers[w] + [row]])) + multiset(Concat(buffers[w := []]))
            == multiset(appended + [row])
  {
    ConcatAppendOne(recorded, buffers[w] + [row]);
    ConcatSplit(buffers, w);
    assert multiset(appended + [row]) == multiset(appended) + multiset{row};
  }

  /** A buffer that stays below the threshold keeps the account too. */
  lemma KeepAccounting<T>(recorded: seq<seq<T>>, buffers: seq<seq<T>>, appended: seq<T>, w: nat, row: T)
    requires w < |buffers|
    requires multiset(Concat(recorded)) + multiset(Concat(buffers)) == multiset(appended)
    ensures multiset(Concat(recorded)) + multiset(Concat(buffers[w := buffers[w] + [row]]))
            == multiset(appended + [row])
  {
    var updated := buffers[w := buffers[w] + [row]];
    ConcatSplit(buffers, w);
    ConcatSplit(updated, w);
    assert updated[w := []] == buffers[w := []];
    assert multiset(appended + [row]) == multiset(appended) + multiset{row};
  }

  /**
   * The thread-local accumulator: one buffer per worker, the batches
   * recorded to the output dataset so far in call order, and (for the
   * proofs) every row ever appended.
   */
  class Accumulator<T> {
    var buffers: seq<seq<T>>
    var recorded: seq<seq<T>>
    ghost var appended: seq<T>

    /**
     * Every buffer is below the threshold, no recorded batch is above it,
     * and the recorded rows plus the buffered rows are exactly the
     * appended rows: none lost, none duplicated.
     */
    ghost predicate Valid()
      reads this
    {
      && (forall w :: 0 <= w < |buffers| ==> |buffers[w]| < FlushThreshold)
      && (forall k :: 0 <= k < |recorded| ==> |recorded[k]| <= FlushThreshold)
      && multiset(Concat(recorded)) + multiset(Concat(buffers)) == multiset(appended)
    }

    constructor (workers: nat)
      ensures Valid()
      ensures |buffers| == workers && forall w :: 0 <= w < workers ==> buffers[w] == []
      ensures recorded == [] && appended == []
    {
      buffers := seq(workers, _ => []);
      recorded := [];
      appended := [];
      new;
      ConcatOfEmpties(buffers);
    }

    /**
     * A worker appends one row to its own buffer; a buffer that reaches
     * the threshold is recorded as one batch and cleared.
     */
    method Append(w: nat, row: T)
      requires Valid() && w < |buffers|
      modifies this
      ensures Valid()
      ensures appended == old(appended) + [row]
      ensures |buffers| == |old(buffers)|
      ensures var filled := old(buffers)[w] + [row];
        if |filled| >= FlushThreshold then
          recorded == old(recorded) + [filled] && buffers == old(buffers)[w := []]
        else
          recorded == old(recorded) && buffers == old(buffers)[w := filled]
    {
      var rows := buffers[w] + [row];
      if |rows| >= FlushThreshold {
        FlushAccounting(recorded, buffers, appended, w, row);
        recorded := recorded + [rows];
        rows := [];
      } else {
        KeepAccounting(recorded, buffers, appended, w, row);
      }
      buffers := buffers[w := rows];
      appended := appended + [row];
    }

    /**
     * The final pass: every worker's buffer, full or not, is recorded
     * once, after which the buffers are gone. Afterwards the recorded rows
     * are exactly the appended rows.
     */
    method Drain()
      requires Valid()
      modifies this
      ensures Valid()
      ensures recorded == old(recorded) + old(buffers)
      ensures |buffers| == |old(buffers)| && forall w :: 0 <= w < |buffers| ==> buffers[w] == []
      ensures appended == old(appended)
      ensures multiset(Concat(recorded)) == multiset(appended)
    {
      var w := 0;
      while w < |buffers|
        invariant 0 <= w <= |buffers|
        invariant buffers == old(buffers) && appended == old(appended)
        invariant recorded == old(recorded) + buffers[..w]
        invariant forall k :: 0 <= k < |recorded| ==> |recorded[k]| <= FlushThreshold
      {
        recorded := recorded + [buffers[w]];
        assert buffers[..w + 1] == buffers[..w] + [buffers[w]];
        w := w + 1;
      }
      assert buffers[..w] == buffers;
      ConcatJoin(old(recorded), buffers);
      buffers := seq(|buffers|, _ => []);
      ConcatOfEmpties(buffers);
    }
  }
}
