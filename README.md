# Bucketize procedure and JSON line importer of MLDB, in Dafny

This project models two procedures of MLDB.

**`bucketize`** ranks the rows of a query by its ORDER BY clause. It puts
each row into the named bucket whose percentile range covers the row's rank,
writing a `bucket` column whose value is the bucket's name.

- Configuration time: the `percentileBuckets` ranges are validated. They are
  sorted by start and walked in that order. A range is refused if its start
  is negative, its end is above 100, its start is not below its end, or it
  starts before the previous range ends.
- Run time: the query's rows are collected in order. The latest valid
  order-by timestamp seen becomes the timestamp of every output cell.
- Each range `[start, end]` becomes a half-open index interval
  `[lowerBound, higherBound)` over those rows.
- Every index in that interval is appended to the calling worker's buffer.
  A buffer that reaches 1024 rows is recorded to the output dataset and
  cleared. At the end, every buffer is recorded once more.

**`import.json`** reads a text file with one JSON value per line.

- An empty line is skipped.
- A line that fails to parse, or is not an object, is handled as set by
  `ignoreBadLines`. When it is false the run fails. When it is true the line
  adds one to the error count.
- An object line becomes row `row<n>`, where n is the line number counted
  from 1. Its columns come from flattening the object:
  - nulls give no column;
  - atoms give one column;
  - an array of atoms gives one `true` column per element, named after the
    element;
  - any other array gives one column holding its serialised text;
  - a nested object gives its members under dotted names.

Files:

- `wrappers.dfy`: Option / Result / Outcome.
- `ranges.dfy` (module `PercentileRanges`): the range validator.
- `bounds.dfy` (module `IndexBounds`): percentage-to-index arithmetic.
- `dates.dfy` (module `Dates`): timestamps and the running maximum.
- `accumulator.dfy` (module `Accumulation`): the per-worker buffers, as a
  class.
- `bucketize.dfy` (module `Bucketize`): collecting the ordered rows,
  assigning indices to buckets, the bucket loop with its drain, and the
  whole procedure.
- `json_importer.dfy` (module `JsonImport`): the flattener, the line
  handler (a class holding the two counters) and the import loop.

Points where the code differs from what one might expect:

- **Lower-bound guard.** The code tests `range.second == 0`, the range's
  END, where a test of the start (`range.first == 0`) would be expected.
  The model keeps the code's test. `LowerGuardNeverFires` proves the guard
  is dead on a validated range. `ExtremesAreExact` proves that a start of 0 still gives index 0.
  The two readings therefore never differ.
- **What a bucket holds.** The configuration's documentation says bucket
  `[0, 50]` holds the rows where 0% < rank/count <= 50%. `RankCriterion`
  proves that the index arithmetic gives exactly this, for every range and
  row count, with ranks counted from 1.
- **Bounds check.** The code asserts only `higherBound <= rowCount`.
  The model proves the stronger `0 <= lowerBound <= higherBound <= rowCount`
  for every validated range.
- **Error message.** The message for an end above 100 says the bound must
  be "lower or equal to 1". The model keeps only the error kind
  (`EndAbove100`), not the text.

## Model

| member | source | states |
|---|---|---|
| `PercentileRanges.SortByStart` | plugins/bucketize_procedure.cc:71-75 | the result is ordered by start and is a permutation (same multiset) of the input |
| `PercentileRanges.InsertByStart` | plugins/bucketize_procedure.cc:71-75 | inserting into a start-ordered list keeps it ordered and adds exactly that one range |
| `PercentileRanges.PrependSorted` | plugins/bucketize_procedure.cc:71-75 | a range starting no later than every range of a sorted list keeps the list sorted when put in front |
| `PercentileRanges.HeadStartsFirst` | plugins/bucketize_procedure.cc:71-75 | the head of a sorted list starts no later than any later range inserted behind it |
| `PercentileRanges.CheckSorted` | plugins/bucketize_procedure.cc:77-101 | the walk with `last = (-1, -1)` accepts iff every range is within [0,100] with start < end and no two ranges overlap (shared boundaries allowed); a refusal names a range that breaks the rule of its kind, or two overlapping ranges present in the input, and the range it names is the first in the walk that cannot join the ranges before it |
| `PercentileRanges.PrefixAcceptable` | plugins/bucketize_procedure.cc:77-100 | the ranges the walk has passed are acceptable, and a badly formed next range makes the longer prefix unacceptable |
| `PercentileRanges.Validate` | plugins/bucketize_procedure.cc:64-101 | the configuration is accepted iff its ranges, whatever their labels and order, are well formed and pairwise disjoint; a refusal names offending ranges of the configuration, the first such range in start order |
| `PercentileRanges.EarlierBadRangeReported` | plugins/bucketize_procedure.cc:77-93 | with [-5, 10] and [20, 200], the refusal is the negative start of the first, not the end above 100 of the second |
| `PercentileRanges.ChainGap` | plugins/bucketize_procedure.cc:94-100 | if each range starts at or after the end of the one before it, every earlier range ends at or before every later range starts |
| `PercentileRanges.ChainedIsAcceptable` | plugins/bucketize_procedure.cc:94-100 | checking neighbours in sorted order is enough to rule out any overlapping pair |
| `PercentileRanges.AcceptablePermutation` | plugins/bucketize_procedure.cc:67-75 | acceptance is unchanged by reordering the ranges, duplicates included |
| `PercentileRanges.AcceptanceIgnoresLabelsAndOrder` | plugins/bucketize_procedure.cc:67-75 | two configurations with the same multiset of ranges are accepted or refused alike, whatever their bucket names |
| `PercentileRanges.BadRangeRefused` | plugins/bucketize_procedure.cc:79-93 | a configuration with any range that has start < 0, end > 100 or start >= end is refused |
| `PercentileRanges.SharedBoundaryAccepted` | plugins/bucketize_procedure.cc:55-61 | `{"a": [0, 50], "b": [50, 100]}` is accepted |
| `PercentileRanges.OverlapRefused` | plugins/bucketize_procedure.cc:94-99 | two well-formed ranges where one starts inside the other are refused in either order |
| `IndexBounds.Truncate` | plugins/bucketize_procedure.cc:196-197 | the `int64_t(...)` conversion truncates toward zero: within one of its argument on the side of zero |
| `IndexBounds.LowerBound` | plugins/bucketize_procedure.cc:196 | the first index of a bucket whose start is a percentage is a position among the rows: 0 <= lowerBound <= rowCount |
| `IndexBounds.HigherBound` | plugins/bucketize_procedure.cc:197 | one past the last index of a bucket whose end is a percentage is within 0..rowCount |
| `IndexBounds.ScaleMonotone` | plugins/bucketize_procedure.cc:196-197 | `p / 100 * rowCount` is monotone in p and stays within [0, rowCount] for p in [0, 100] |
| `IndexBounds.TruncateMonotone` | plugins/bucketize_procedure.cc:196-197 | truncation of non-negative values is non-negative and monotone |
| `IndexBounds.BoundsWithinRows` | plugins/bucketize_procedure.cc:193-199 | for a validated range and any rowCount, 0 <= lowerBound <= higherBound <= rowCount, so the assertion on line 199 always holds |
| `IndexBounds.LowerGuardNeverFires` | plugins/bucketize_procedure.cc:196 | on a validated range the `range.second == 0` guard is false, so lowerBound is always the truncated product |
| `IndexBounds.ExtremesAreExact` | plugins/bucketize_procedure.cc:195-197 | a range starting at 0 gets lowerBound 0; a range ending at 100 gets higherBound rowCount |
| `IndexBounds.SeparatedRangesSeparateIndices` | plugins/bucketize_procedure.cc:193-197 | if r1 ends at or before r2 starts, r1's higherBound is at most r2's lowerBound |
| `IndexBounds.AcceptedRangesDisjointIndices` | plugins/bucketize_procedure.cc:193-197 | the index intervals of any two ranges of an accepted configuration do not overlap |
| `IndexBounds.ScaleCompare` | plugins/bucketize_procedure.cc:196-197 | `p / 100 * rowCount` is below a value m iff p% is below m / rowCount, and likewise for at least |
| `IndexBounds.RankCriterion` | plugins/bucketize_procedure.cc:58-61 | for any validated range and any row count, the row at index i lies in [lowerBound, higherBound) iff start% < (i + 1) / rowCount <= end%, the documented meaning of a bucket |
| `IndexBounds.HalvesOfTenRows` | plugins/bucketize_procedure.cc:55-61 | [0, 50] and [50, 100] over 10 rows give [0, 5) and [5, 10) |
| `Dates.SetMax` | plugins/bucketize_procedure.cc:146 | the result is a date no earlier than the new date or the running maximum, and equal to one of them |
| `Dates.LatestValid` | plugins/bucketize_procedure.cc:139-148 | the running maximum from negative infinity is negative infinity iff no valid date was seen; otherwise it is one of the valid dates seen and no earlier than any of them |
| `Dates.LatestValidGrows` | plugins/bucketize_procedure.cc:139-148 | once a date has been seen, the running maximum stays a date and only grows as timestamps are added |
| `Bucketize.LatestValidStep` | plugins/bucketize_procedure.cc:143-147 | one more timestamp changes the maximum through `setMax` exactly when it is a valid date |
| `Bucketize.ClauseStep` | plugins/bucketize_procedure.cc:143-147 | after one more order-by clause of a row the running maximum is updated as `setMax` says, on valid dates only |
| `Bucketize.RowStep` | plugins/bucketize_procedure.cc:140-152 | one more row contributes its clauses' timestamps after those of the rows before it |
| `Bucketize.ResolveRanks` | plugins/bucketize_procedure.cc:138-152 | the collected row names are the query's rows in order, and the timestamp is the running maximum of all their valid order-by timestamps |
| `Accumulation.ConcatJoin` | plugins/bucketize_procedure.cc:207-211 | the rows of two batch sequences joined are the rows of the first followed by those of the second |
| `Accumulation.ConcatSplit` | plugins/bucketize_procedure.cc:184-191 | the rows of all per-worker buffers are one buffer's rows plus those of the others |
| `Accumulation.FlushAccounting` | plugins/bucketize_procedure.cc:186-191 | a full buffer recorded in one batch and cleared loses and duplicates no row |
| `Accumulation.KeepAccounting` | plugins/bucketize_procedure.cc:186 | appending below the threshold loses and duplicates no row |
| `Accumulation.Accumulator.constructor` | plugins/bucketize_procedure.cc:173 | one empty buffer per worker, nothing recorded, nothing appended |
| `Accumulation.Accumulator.Append` | plugins/bucketize_procedure.cc:182-192 | the row joins the worker's buffer; when that buffer reaches 1024 it is recorded as one batch and emptied; afterwards every buffer holds fewer than 1024 rows and recorded plus buffered rows are exactly the appended rows |
| `Accumulation.Accumulator.Drain` | plugins/bucketize_procedure.cc:207-211 | every worker's buffer is recorded exactly once, full or not; afterwards the recorded rows are exactly the appended rows (same multiset) |
| `Bucketize.AcceptableIsWellFormed` | plugins/bucketize_procedure.cc:79-93 | every bucket of an accepted configuration has 0 <= start < end <= 100 |
| `Bucketize.AssignmentsSound` | plugins/bucketize_procedure.cc:175-205 | every appended row is an existing row whose index is in the interval of the bucket it is labelled with, and every index of every bucket's interval is appended with that bucket's name |
| `Bucketize.IntervalsApart` | plugins/bucketize_procedure.cc:193-197 | two different buckets of an accepted configuration share no row index |
| `Bucketize.LastBucketApart` | plugins/bucketize_procedure.cc:175-205 | the indices of a bucket are none of those of the buckets before it |
| `Bucketize.BucketIndicesDistinct` | plugins/bucketize_procedure.cc:204 | one bucket's parallel map visits each index of its interval once |
| `Bucketize.JoinDistinct` | plugins/bucketize_procedure.cc:175-205 | joining two index-distinct lists whose indices differ gives an index-distinct list |
| `Bucketize.AssignmentsDistinct` | plugins/bucketize_procedure.cc:175-205 | with an accepted configuration no row index is appended twice, so each index in some bucket's interval is appended exactly once |
| `Bucketize.AcceptablePrefix` | plugins/bucketize_procedure.cc:64-101 | dropping trailing buckets keeps a configuration acceptable |
| `Bucketize.BucketAssignmentsAt` | plugins/bucketize_procedure.cc:186 | the k-th row a bucket appends is the one at lowerBound + k, labelled with the bucket's name |
| `Bucketize.AssignmentCount` | plugins/bucketize_procedure.cc:193-205 | the number of rows appended is the sum of higherBound - lowerBound over the buckets; an empty interval appends nothing |
| `Bucketize.RowsOfStep` | plugins/bucketize_procedure.cc:186 | the rows of one more assignment are the earlier rows followed by that assignment's row |
| `Bucketize.RowsOfJoin` | plugins/bucketize_procedure.cc:186 | the rows for two lists of assignments joined are the rows of each joined |
| `Bucketize.ExpectedRows` | plugins/bucketize_procedure.cc:176-186 | every row to record is a row of the query with exactly one `bucket` cell, whose value names a configured bucket and whose timestamp is the run's one timestamp |
| `Bucketize.FillBucket` | plugins/bucketize_procedure.cc:182-204 | the rows appended for one bucket are exactly those of its index interval, in index order, each with that bucket's cell |
| `Bucketize.Run` | plugins/bucketize_procedure.cc:166-211 | the recorded batches hold exactly the expected rows (none lost, none duplicated), no batch is above 1024 rows, and every recorded cell is a `bucket` cell with the run's one timestamp |
| `Bucketize.BucketizeProcedure` | plugins/bucketize_procedure.cc:64-211 | a refused configuration records nothing and reports the first offending range in start order; an accepted one records exactly the expected rows for the query's rows and their latest valid timestamp |
| `JsonImport.StripNewline` | plugins/json_importer.cc:178-180 | the text loses one trailing newline if it has one and is otherwise unchanged |
| `JsonImport.EmplaceCol` | plugins/json_importer.cc:136-189 | every column a value yields under name `id` has a name that begins with `id` |
| `JsonImport.FlattenMembers` | plugins/json_importer.cc:184-188 | every column from an object's members has a name that begins with the prefix followed by one member's key |
| `JsonImport.RowColumns` | plugins/json_importer.cc:191-193 | every column of a row has a name that begins with one of the top-level member names |
| `JsonImport.NullAndAtomColumns` | plugins/json_importer.cc:141-155 | null yields no column; a bool, int, double or string yields exactly one column named `id` with that value |
| `JsonImport.ScanOnlyAtomic` | plugins/json_importer.cc:158-164 | the scan that stops at the first array or object element answers true iff no element is an array or an object |
| `JsonImport.AtomKey` | plugins/json_importer.cc:168-173 | a string element names its column by its own text, a boolean by "true" exactly when it is true and "false" otherwise, a number by its printed form, and a null by its serialisation |
| `JsonImport.AtomicArrayColumns` | plugins/json_importer.cc:156-176 | an array without arrays or objects yields one column per element, named `id.<element key>`, with value `true` |
| `JsonImport.NestedArrayColumn` | plugins/json_importer.cc:156-182 | an array holding an array or an object yields exactly one column named `id`, holding the serialised array without its trailing newline |
| `JsonImport.NonNull` | plugins/json_importer.cc:141-143 | the kept members are non-null members of the object |
| `JsonImport.NullMembersDropped` | plugins/json_importer.cc:141-143 | removing the null members of an object does not change its columns |
| `JsonImport.Decimal` | plugins/json_importer.cc:133 | the `%d` text of a number is a non-empty string of digits, of two or more digits from 10 up |
| `JsonImport.DecimalInjective` | plugins/json_importer.cc:133 | different numbers print as different text |
| `JsonImport.RowName` | plugins/json_importer.cc:133 | a row name is "row" followed by more text |
| `JsonImport.RowNamesDistinct` | plugins/json_importer.cc:133 | rows from different lines get different names |
| `JsonImport.Classify` | plugins/json_importer.cc:110-130 | a line is empty iff it has no characters, unparsable iff non-empty and the parser fails, not an object iff it parses to a non-object, and accepted (with the object's members) iff it parses to an object |
| `JsonImport.LineStep` | plugins/json_importer.cc:110-198 | one more line adds its row after the earlier rows when it is an object, adds one to the bad lines when it is bad, and keeps "no bad line so far" when it is not bad |
| `JsonImport.EveryNonEmptyLineCounted` | plugins/json_importer.cc:110-130 | each non-empty line is either an accepted row or a bad line: accepted rows plus bad lines equals the number of non-empty lines |
| `JsonImport.AcceptedRowNamesDistinct` | plugins/json_importer.cc:133 | every recorded row is named after one line, and no two recorded rows share a name |
| `JsonImport.Importer.constructor` | plugins/json_importer.cc:103-104 | both counters start at zero and nothing is recorded |
| `JsonImport.Importer.OnLine` | plugins/json_importer.cc:105-200 | an empty line changes nothing; an unparsable or non-object line fails when bad lines are not ignored, else adds one to `errors` only; an object line adds exactly one to `recordedLines` and records row "row<lineNumber+1>" with the flattened columns |
| `JsonImport.Import` | plugins/json_importer.cc:103-210 | with `ignoreBadLines` the run succeeds and rowCount + numLineErrors equals the number of non-empty lines; without it the run succeeds iff no line is bad, else fails at the first bad line with its kind; on success the rows recorded are those of the object lines, in order |

## Left out

- Concurrency. `parallelMap` is modelled as a sequential loop over each interval, and a caller-supplied `workerFor` picks each index's worker. The thread-locality of `PerThreadAccumulator`, the `recordMutex` and the atomic counters are not modelled. The importer's lines are handled one after another, and the run stops at the first bad line.
- Order of recorded rows. Recorded rows are stated equal to the expected rows as a multiset, because the source promises no order.
- `Accumulation.Accumulator.Drain`: it records one batch per worker, empty batches included. The source's `forEach` visits only workers that were created, lazily, on first use. Also, the source never clears the buffers: the accumulator is simply destroyed. The model empties them instead.
- Floating point. Percentages are `real`. The single-precision rounding of `range.first / 100 * rowCount` is not modelled, and neither is int64 overflow.
- Query execution. `BoundSelectQuery::execute`, WHERE, ORDER BY, offset/limit and `latest_timestamp` are not modelled. The ordered rows and the per-clause timestamps are given as input. Which `Date` values count as valid is reduced to one `Instant` case.
- The input-query check. `MustContainFrom<InputQuery>()` refuses, during the same validation, an input query without a FROM clause. Queries are not modelled, so `PercentileRanges.Validate` checks only the ranges.
- `PercentileRanges.Validate`: when several ranges share a start, which of them the walk meets first depends on the order `std::sort` leaves them in. That order is unspecified. The model's sort puts them in configuration order, and "first offender" refers to that order.
- The output dataset. `createDataset`, `obtainDataset` and `commit` are not modelled. `recordRows` is modelled as appending a batch to `recorded`, and `recordRow` as appending a row.
- Library formatting and parsing. The JSON parser is a parameter `parse`. The printing of doubles and ints (`lexical_cast`) and `Json::Value::toString` are the fields of a `Printer` parameter. Which numbers the JSON library reports as `isInt` or `isDouble` is reduced to two distinct kinds. Column timestamps (always `zeroTs`) are not kept.
- `JsonImport.StripNewline`: an empty serialisation is returned unchanged, where the source's `substr` would throw. A serialised array is never empty.
- `JsonImport.RowName`: it uses exact decimal text. The source passes an `int64_t` to `%d`.
- File I/O. `filter_istream`, `forEachLineBlock`, and the line offset and limit are not modelled. Lines are given as a sequence, and a line's number is its position.
- Error messages. They are reduced to error kinds that carry the offending values.
- `server/dataset_context.cc` and the two Python tests are not part of this model.
