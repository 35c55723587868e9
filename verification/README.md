# Verified models of the core algorithms

The repository joins a change-feed engine, a schema layer and a SQL value library. The files here model the
parts of it that compute something hard and prove what those parts guarantee. Where the code does not keep
what it promises, the model keeps the code as it is, and a theorem says for exactly which inputs it is right.

`dafny verify dfyconfig.toml` checks everything.

## How the project is laid out

| concern | files |
|---|---|
| shared vocabulary | `Common.dfy` |
| high-contention allocator | `Allocator.dfy` (the transaction and its runs), `AllocatorRuns.dfy` (invariants, uniqueness), `AllocatorCounts.dfy` (counters against taken numbers) |
| change feed | `ChangeEvents.dfy`, `SinkRows.dfy`, `LockReplay.dfy`, `ScanBatches.dfy`, `Sentinels.dfy`, `Commands.dfy` (rows, lock events and failures told from the records) |
| datums | `Payloads.dfy`, `Datums.dfy`, `ByteOrder.dfy`, `KeyOrder.dfy`, `Arithmetic.dfy` |
| lazy columns | `Columns.dfy` |
| numbers in text | `Decimal.dfy`, `ParseInt.dfy`, `FloatPrefix.dfy`, `FloatRounding.dfy` |
| schema values and updates | `Values.dfy`, `SpannedValues.dfy`, `Upsert.dfy`, `NameMaps.dfy`, `TopographUpdate.dfy` |
| read pool | `ReadPool.dfy` |

Objects that the code updates in place are classes here, with methods that follow its branches and loops; each
method is proved against a function of the old state, and the theorems are about those functions and their
runs. A panic or failed assertion is an explicit outcome (`None`, `Panic`, or a false `ok`).

## What the proofs found

- **Allocator.** The documentation asks for unique numbers (`namespaced_defs.rs:171-173`). Line 495 drops the
  write conflict of the store operation that claims a number, and lines 510-512 never restore it, so two
  overlapping transactions can return the same number (`OverlappingRunRepeats`). A number repeats exactly when
  it was committed after the transaction took its snapshot (`RepeatsIffMissedConflict`). With the conflict
  restored, or with transactions one after another, all numbers of every run are distinct, also when one
  transaction allocates several times.
- **Window counters.** Only the newest window's counter is always at least the number of its taken entries. For
  older windows this fails even with the conflict restored (`StaleRun`): a transaction that saw numbers taken
  marks them again after a later window cleared them, and counts only twice. A commit keeps every window
  counted exactly when it moves on to a new window, or the numbers it marks anew fit under the window's counter
  and its own two counts (`CommitKeepsCountsIffMarksFit`). Serial runs always do, and so do concurrent runs
  whose transactions commit while their window is still the newest (`TimelyRunsAreCounted`).
- **Mixed arithmetic.** `checked_add_i64` adds without a check when the signed operand is not negative
  (`datum.rs:260`); `AddIsExactIffNoWrap` states exactly when the sum is right. A negative operand times an
  unsigned zero is refused although the product fits (`datum.rs:778`), and the remainder of the least 64-bit
  integer by -1 panics although it is 0.
- **Durations.** Writing keeps nanoseconds, reading rounds to microseconds and checks the range, so a duration
  survives exactly when it is a whole number of microseconds in range. The clipped value the duration parser
  makes (`duration.rs:466`) cannot be read back.
- **Change-feed rows.** Merging the puts of one command is independent of their order exactly when the puts are
  compatible. An additional empty default put is not harmless: it counts the value's size a second time.
- **Broadcast filter.** The last subscriber is not filtered (`mod.rs:431-434`), so a filtered broadcast respects
  its filter exactly when the last subscriber is in the normal state. `stop` marks only the subscribers of a
  ready region as stopped (`mod.rs:411-413`).
- **Order of values.** Within a kind every comparison is upside down, at every level of nesting. The two ranks for
  plain and namespaced keywords (`types.rs:464-465`) count only against other kinds: two keywords are compared by
  name, and then a plain one comes after every namespaced one, against its rank.
- **Name tables.** A transaction whose changes start from an entity's present name, or go back to it, keeps the
  tables mutually inverse exactly when no name is touched after it is given and no name of an entity it does not
  mention is touched (`InverseIffGivenLastAndSpared`). If all changes start from present names, this says that
  new names are pairwise distinct and free when they are given. Swapping two names in one transaction loses one.
- **Altered pairs.** An addition seen before its retraction stores the pair reversed
  (`lightlike_upsert.rs:553-554`). Over a whole transaction every entity gets its intended name exactly if its
  retraction is not late; a late one keeps the old name without an error and takes the new name out of the id
  table. If nothing else happens, that breaks the tables exactly if another entity holds the new name. Within a
  larger transaction this is neither necessary (`LateAndBroken`) nor sufficient (`LateButInverse`);
  `TransactionKeepsInverseIffGivenLastAndSpared` has the exact condition for every transaction, late or not. The
  test of the same file (592-663) expects other behaviour than this code has; the model follows the code.

## Assumptions

- Vocabulary of the byte formats, whose codecs are not part of the repository: 64-bit integers are eight bytes
  big-endian (signed ones with the top bit flipped); variable-width integers are groups of seven bits, least
  significant first, signed ones in zigzag form; order-preserving byte strings are groups of eight bytes, each
  followed by 255 less its padding; compact byte strings carry a variable-width length. The length of an
  order-preserving string that does not end is that of the buffer.
- The size of a window (`window_size`) is not part of this model; every theorem holds for any size function with
  sizes of at least 3.
- The store detects conflicts optimistically: a commit is refused if a key it read with a conflict was written
  after its snapshot. A transaction sees its own writes.
- Random draws are a sequence of naturals, reduced to the window; the theorems are for all of them.
- Unchecked machine arithmetic wraps around, as in a release build; this concerns `datum.rs:260` and `807`.
- A resolver is known only by a step function from its state and a lock event to its next state.
- Raw keys, write records and lock records arrive parsed.
- The consumer of name events calls `witness` on `AddRetractAlterSet` (`spacetime.rs:651-664`), a type declared
  without that method (`fdb_traits/src/options.rs:191`). It is taken to be the one of `LightlikeUpsert`, which has
  the same three groups and the same description.

## Model

| member | source | states |
|---|---|---|
| Allocator.Transaction.AdvanceWindow | einstein_db_alexandrov_processing/namespaced_defs.rs:435-474 | ends, with the window the snapshot calls for, and with the counters and taken numbers before that window cleared if it had to move on |
| Allocator.Transaction.Allocate | einstein_db_alexandrov_processing/namespaced_defs.rs:430-512 | any number of allocations in one transaction: each returns a number and leaves exactly the writes that the transaction's view and the draws determine; the exit for a window that moved meanwhile is never taken |
| AllocatorRuns.WindowsDisjoint | einstein_db_alexandrov_processing/namespaced_defs.rs:466-473 | two windows that a run can start never overlap |
| AllocatorRuns.CommitKeepsSound | einstein_db_alexandrov_processing/namespaced_defs.rs:432-512 | a commit planned on any earlier state keeps the invariant: the newest window's counter is at least the count of its taken numbers, and every number ever returned is below the newest window or still marked taken; for older windows see CommitKeepsCountsIffMarksFit |
| AllocatorRuns.NumberIsNew | einstein_db_alexandrov_processing/namespaced_defs.rs:479-512 | over every sequence of allocations in one transaction, each number is neither taken in the snapshot nor returned by an earlier one |
| AllocatorRuns.AnyFreeNumberCanBeReturned | einstein_db_alexandrov_processing/namespaced_defs.rs:479-512 | the numbers an allocation can return are exactly the free ones of the window it settles on |
| AllocatorRuns.CommitLeaves | einstein_db_alexandrov_processing/namespaced_defs.rs:446-512 | a commit leaves two more counts in its window, every number it drew marked, and if it moved on nothing before its window; nothing else changes |
| AllocatorRuns.RunIsSound | einstein_db_alexandrov_processing/namespaced_defs.rs:432-512 | the invariant holds after every concurrent run, and nothing returned is ever forgotten |
| AllocatorRuns.MoreThanHalfIsFree | einstein_db_alexandrov_processing/namespaced_defs.rs:435-479 | for every allocation on every reachable state, when drawing begins strictly more than half of the chosen window is free |
| AllocatorRuns.RepeatsIffMissedConflict | einstein_db_alexandrov_processing/namespaced_defs.rs:488-512 | a committed number repeats an earlier one if and only if that number was committed after the transaction's snapshot |
| AllocatorRuns.NumbersAreUnique | einstein_db_alexandrov_processing/namespaced_defs.rs:171-173 | with the dropped write conflict restored, no concurrent run returns a number twice, within one transaction or across commits |
| AllocatorRuns.SerialNumbersAreUnique | einstein_db_alexandrov_processing/namespaced_defs.rs:488-512 | as written, numbers are unique when every transaction starts after the previous commit |
| AllocatorRuns.OverlappingRunRepeats | einstein_db_alexandrov_processing/namespaced_defs.rs:488-512 | as written, two overlapping transactions return the same number |
| AllocatorCounts.CommitKeepsCountsIffMarksFit | einstein_db_alexandrov_processing/namespaced_defs.rs:446-512 | a commit planned on any earlier state keeps the counter of every window at least the number of its taken entries, if and only if it moves on or the numbers it marks anew fit under the counter and two |
| AllocatorCounts.SerialRunsAreCounted | einstein_db_alexandrov_processing/namespaced_defs.rs:446-512 | in runs of transactions one after another the counter of every window is at least the number of its taken entries |
| AllocatorCounts.TimelyMarksFit | einstein_db_alexandrov_processing/namespaced_defs.rs:446-512 | a commit planned on any earlier state marks at most one new number, which fits under the counter, if its window is still the newest |
| AllocatorCounts.TimelyRunsAreCounted | einstein_db_alexandrov_processing/namespaced_defs.rs:446-512 | in concurrent runs whose transactions commit while their window is still the newest the counter of every window is at least the number of its taken entries |
| AllocatorCounts.StaleRun | einstein_db_alexandrov_processing/namespaced_defs.rs:446-512 | a concurrent run, conflicts restored, after which an old window holds three taken numbers and counts two |
| KeyOrder.EncodingKeepsOrder | allegro_poset/datum.rs:1008-1080 | for lists that agree in type position by position, or hold Null, Min or Max, with Min only last, byte order of the key encodings equals the lexicographic order of the lists |
| KeyOrder.CmpIsTheOrder | allegro_poset/datum.rs:268-329 | in every mix of types and both argument orders: null, then the minimum, then everything else by content, then the maximum; signed and unsigned integers by value, byte strings by their first difference; a result exists exactly within a type, with a boundary or between integers |
| KeyOrder.SameTypeCompares | allegro_poset/datum.rs:268-301 | comparison within a type, or with a boundary, never fails, is antisymmetric, and is equal only on equal datums |
| KeyOrder.MixedKeysOrderedIffSmaller | allegro_poset/datum.rs:1022-1039 | across the two integer types keys are ordered by their flags alone, which is right if and only if the signed one is smaller |
| ByteOrder.ComparableKeepsOrder | allegro_poset/datum.rs:1040-1047 | padded groups keep the order of byte strings whatever follows them, so no encoded string is a proper prefix of another |
| Datums.Buffer.WriteDatum | allegro_poset/datum.rs:1008-1080 | appends every datum's flag and payload; fails if and only if a Min is not last, and then the buffer holds everything up to that Min |
| Datums.Encode | allegro_poset/datum.rs:1127-1132 | a fresh buffer holds exactly the encoding, or there is an error |
| Datums.Decode | allegro_poset/datum.rs:994-1001 | reads datum after datum until the input is used up or the first one fails |
| Datums.DecodeUndoesEncodeIffReadable | allegro_poset/datum.rs:994-1080 | in both modes decoding gives the encoded list back if and only if it has no Min, no Max, and only whole-microsecond durations in range |
| Datums.KeyReadIsKeyWritten | allegro_poset/datum.rs:965-1001 | a key that can be read is exactly what is written for the datum read, so no two keys read the same |
| Datums.DurationKeptIffWholeMicros | berolinasql/src/duration.rs:478-488 | a duration survives writing and reading if and only if it is a whole number of microseconds in range |
| Datums.DurationIsRounded | berolinasql/src/duration.rs:478-488 | reading rounds to the nearest whole microsecond, halves away from zero, and fails if and only if the duration is within 500 nanoseconds of the end of the range or beyond |
| Datums.ClippedDurationIsUnreadable | berolinasql/src/duration.rs:466 | the clipped duration of an overflowing literal is rejected on reading |
| Datums.SplitCutsFirstDatumIffNotMax | allegro_poset/datum.rs:1159-1191 | splitting an encoded list gives exactly the first datum's bytes and the encoding of the rest, if and only if that datum is not Max |
| Datums.SplitAgreesWithRead | allegro_poset/datum.rs:965-1191 | on any bytes a datum can be read from, splitting cuts exactly where reading stops |
| Datums.SplitsIff | allegro_poset/datum.rs:1159-1191 | which bytes can be split: null, byte strings and variable-width integers always, eight-byte payloads if they are there |
| Datums.ApproximateSizeBoundsLength | allegro_poset/datum.rs:1088-1123 | the estimate is never below the encoded length, and equals it for keys |
| Datums.EstimateIsReachedIff | allegro_poset/datum.rs:1088-1123 | the compact estimate is reached if and only if the integer, or the length, needs all ten bytes |
| Arithmetic.AddIsExactIffNoWrap | allegro_poset/datum.rs:714-741 | addition in every mix of integer types is exact and reports overflow, if and only if it is not a mixed sum of non-negative operands past the unsigned range; that one wraps |
| Arithmetic.MinusIsExact | allegro_poset/datum.rs:743-772 | subtraction is exact and fails exactly when the difference does not fit |
| Arithmetic.MulIsExactIffNoNegativeTimesZero | allegro_poset/datum.rs:774-794 | multiplication is exact and fails exactly when the product does not fit, but for a negative signed operand and an unsigned zero |
| Arithmetic.IntDivIsExact | allegro_poset/datum.rs:826-859 | integer division fails exactly when the truncated quotient does not fit the result type |
| Arithmetic.RemIsExactIffNoPanic | allegro_poset/datum.rs:796-824 | the remainder is exact and of the left operand's type, but for the one pair that panics |
| Arithmetic.DivisionAndRemainderAgree | allegro_poset/datum.rs:796-859 | a quotient and the remainder recompose the dividend; the remainder is smaller than the divisor and zero or of the dividend's sign |
| Columns.QuiesceBatchColumn.EnsureDecoded | causets/quiesce_column.rs:328-359 | decodes the rows asked for, leaves nulls elsewhere, and leaves the column as it was if a cell does not decode or it is decoded already |
| Columns.QuiesceBatchColumn.Encode | causets/quiesce_column.rs:389-403 | appends the raw cell, or the written form of the decoded value |
| Columns.QuiesceBatchColumnVec.Encode | causets/quiesce_column_vec.rs:434-450 | appends one cell for each row and chosen column, row by row |
| Columns.QuiesceBatchColumnVec.TruncateIntoEqualLength | causets/quiesce_column_vec.rs:472-481 | cuts every column to the length of the shortest, and the closing assertion holds |
| Columns.DecodesWhatIsRead | allegro_poset/datum_codec.rs:480-501 | on any bytes, a cell decodes to what the datum reader makes of it in either format, unsigned integers to the signed one of the same bits, and fails if and only if that is no integer or null |
| Columns.EncodedIntegerDecodes | allegro_poset/datum_codec.rs:480-501 | every integer or null written in either format decodes to its value, whatever follows |
| Columns.WrittenCellReads | allegro_poset/datum_codec.rs:404-414 | a column value is written as an unsigned datum of the same bits if the column is unsigned, as a signed one otherwise |
| Columns.WrittenCellDecodes | allegro_poset/datum_codec.rs:404-501 | a written column value, signed or unsigned, reads back as itself |
| Columns.CellAt | causets/quiesce_column_vec.rs:434-450 | in the output the cell of a row and a column follows those of all rows before it and of the columns before it |
| Columns.TruncatedKeepsCells | causets/quiesce_column_vec.rs:472-481 | cutting keeps the cells before the cut as they were |
| Columns.OutputSplitsBack | allegro_poset/datum.rs:1159-1191 | the cells of an output can be recovered from its bytes |
| Columns.LazyDecodingIsUnobservable | causets/quiesce_column.rs:328-403 | the output splits into rows times columns cells, and each reads the same as without decoding, if and only if every output row of a decoded column was asked for or was null |
| LockReplay.ReplayIsDirectDelivery | einstein_db_alexandrov_processing/mod.rs:438-460 | wherever a resolver is installed among the calls, it ends as if it had been there from the start and fed every event at once |
| LockReplay.GaugeCountsHeldBytes | einstein_db_alexandrov_processing/mod.rs:242-246 | over every run of many sentinels the gauge equals the key bytes held in undropped buffers |
| LockReplay.FeedsAreIndependent | einstein_db_alexandrov_processing/mod.rs:242-460 | in a run of many sentinels each ends as its own calls make it, and is gone if and only if it was dropped |
| LockReplay.OneInstallation | einstein_db_alexandrov_processing/mod.rs:438-460 | a run of calls on one sentinel fails if and only if it installs a second resolver |
| Sentinels.Sentinel.Subscribe | einstein_db_alexandrov_processing/mod.rs:308-333 | a subscriber joins the pending or the active list, or is refused with one error event exactly if the region is ready at another version |
| Sentinels.Sentinel.Unsubscribe | einstein_db_alexandrov_processing/mod.rs:351-368 | exactly the subscribers with the id are told, stopped and removed; the feed is disabled if and only if none is left |
| Sentinels.Sentinel.Broadcast | einstein_db_alexandrov_processing/mod.rs:417-435 | who receives the event, the last subscriber unfiltered; fails exactly without subscribers |
| Sentinels.FilterHoldsIffLastIsNormal | einstein_db_alexandrov_processing/mod.rs:425-434 | a filtered broadcast reaches exactly the normal subscribers if and only if the last one is normal; it never leaves a normal one out, and unfiltered it leaves nobody out |
| Sentinels.Sentinel.Stop | einstein_db_alexandrov_processing/mod.rs:403-415 | everybody is told, and all subscribers end up stopped if and only if the region is ready or they all were already |
| Sentinels.Sentinel.OnLock | einstein_db_alexandrov_processing/mod.rs:669-683 | one lock event reaches the resolver or the buffer, and the gauge follows |
| Sentinels.Sentinel.OnRegionReady | einstein_db_alexandrov_processing/mod.rs:438-460 | installs the replayed resolver, returns the pending subscribers, takes the buffered bytes off the gauge, and keeps region, resolver and buffer in step; asserts exactly if installed before |
| Sentinels.Sentinel.Drop | einstein_db_alexandrov_processing/mod.rs:242-246 | the bytes still buffered come off the gauge |
| Sentinels.Sentinel.SinkData | einstein_db_alexandrov_processing/mod.rs:597-709 | succeeds if and only if the puts merge and somebody listens, and then broadcasts the merged rows and total size; the lock events of all requests, or of those up to a failing one, are delivered or buffered in order, and a failure sends nothing |
| Sentinels.Sentinel.OnScan | einstein_db_alexandrov_processing/mod.rs:512-595 | the first subscriber with the id gets the non-empty batches in order, nobody else gets anything |
| Sentinels.ScanArrives | einstein_db_alexandrov_processing/mod.rs:584-594 | the events of a scan hold all its rows in order, and no event is empty |
| Sentinels.BatchesAsEvents | einstein_db_alexandrov_processing/mod.rs:584-594 | there is one event for every batch, with its size and rows, under the subscriber's request id |
| Sentinels.OthersStay | einstein_db_alexandrov_processing/mod.rs:351-368 | unsubscribing keeps all subscribers with other ids, in their order |
| Commands.LockEventsOfRecords | einstein_db_alexandrov_processing/mod.rs:597-683 | each put, delete or rollback write record gives rise to exactly one untracking of its key and start timestamp, at the key's timestamp unless that is 0 or it is a rollback; each put or delete lock record to exactly one tracking; nothing else to any; in the order of the requests |
| Commands.RowsOfRecords | einstein_db_alexandrov_processing/mod.rs:597-709 | a command fails if and only if some request does: an unknown family, a write record for a key mentioned before, or a second value before a lock's; otherwise each key mentioned has one row, with the fields of the last record about it and the last value carried for it, and the size counts each default put's value |
| Commands.FailingCommandDelivers | einstein_db_alexandrov_processing/mod.rs:597-696 | a failing command delivers the lock events before the first failing request, and that one's if it is a write record |
| Commands.RowsOfEntries | einstein_db_alexandrov_processing/mod.rs:512-582 | a scan yields one row for each put or delete record and for its end, no other, in order, with the record's fields, the default value if there is one, and commits marked as committed |
| SinkRows.OrderIndependentIffCompatible | einstein_db_alexandrov_processing/mod.rs:597-709 | rows and total size are the same for every permutation of the requests and no assertion fails, if and only if the requests are pairwise compatible and no family is unknown |
| ScanBatches.CutIntoBatches | einstein_db_alexandrov_processing/mod.rs:525-582 | concatenated batches are the kept rows in order; no batch takes another data row that reaches the limit; every cut is forced; all sizes but the last are exact and the last is 0 |
| ScanBatches.ClosedBatch | einstein_db_alexandrov_processing/mod.rs:538-544 | every batch but the last carries its exact size and was closed only because its successor's first row did not fit |
| ScanBatches.BatchesAreSmall | einstein_db_alexandrov_processing/mod.rs:538-544 | a batch is below the limit or holds a single data row |
| ScanBatches.CutIsUnique | einstein_db_alexandrov_processing/mod.rs:525-582 | there is only one way to cut the rows under these rules |
| ParseInt.BytesToInt | allegro_poset/convert.rs:745-775 | the exact signed value of the leading number, and overflow exactly when it is outside the type |
| ParseInt.ReadDigits | allegro_poset/convert.rs:758-772 | the digit loop ends with the whole run's value, or with overflow exactly when that is outside the type, although it stops at the first partial overflow |
| ParseInt.BytesToUint | allegro_poset/convert.rs:779-800 | the same for the unsigned reader, to which a minus sign is no number |
| ParseInt.ParsingUndoesPrinting | allegro_poset/datum.rs:461-462 | parsing undoes decimal printing, whatever blanks precede and whatever follows |
| ParseInt.DenotedOfParts | allegro_poset/convert.rs:745-800 | for blanks, at most one sign, digits and a rest: the signed reader's number is the signed digits, the unsigned reader's the digits, or 0 after a minus |
| ParseInt.EveryStringHasParts | allegro_poset/convert.rs:745-800 | every string consists of such parts, so the previous line covers all inputs |
| FloatPrefix.GetValidFloatPrefix | allegro_poset/convert.rs:1118-1164 | the longest prefix that is a float literal, or "0"; truncation is reported exactly when that is not the whole input |
| FloatPrefix.PrefixIsFloat | allegro_poset/convert.rs:1118-1164 | the scanner's state describes a prefix if and only if the grammar accepts it |
| FloatPrefix.PartsMakeFloat | allegro_poset/convert.rs:1118-1164 | a sign or none, digits on at least one side of a dot or alone, and an exponent with either letter and a sign or none, or no exponent, make a literal of the grammar |
| FloatPrefix.ScanIsIdempotent | allegro_poset/convert.rs:1118-1164 | scanning its own result changes nothing and reports nothing |
| FloatPrefix.ScanIsDeterministic | allegro_poset/convert.rs:1118-1164 | the scan's specification leaves a single answer |
| FloatPrefix.GetValidIntPrefix | allegro_poset/convert.rs:1091-1114 | inside SELECT, the longest prefix that is an integer literal, or "0" |
| FloatRounding.RoundIntStr | allegro_poset/convert.rs:1167-1199 | adds one to the magnitude exactly when the next digit is 5 or more, carrying through nines and keeping the sign |
| FloatRounding.KeepAndCarry | allegro_poset/convert.rs:1167-1199 | keeping the first digits and carrying by the next one is rounding half away from zero |
| FloatRounding.RoundedIsNearest | allegro_poset/convert.rs:1167-1199 | looking at the first dropped digit only is rounding to the nearest integer, halves away from zero, and no other integer is nearest |
| FloatRounding.DenotesNearest | allegro_poset/convert.rs:2539-2576 | what the conversions are proved to return is exactly an integer text of the literal's value rounded half away from zero |
| FloatRounding.ExpFloatStrToIntStr | allegro_poset/convert.rs:1371-1404 | the text denotes the literal's exact value rounded half away from zero, unless the literal is returned as it is for being too long; and how it is spelled: the sign kept, the digits left of the moved point, one more if a carry runs out of nines |
| FloatRounding.PlaceDigits | allegro_poset/convert.rs:1433-1479 | digits with a point anywhere, before, inside or after them, become the rounded integer, spelled with the literal's sign unless no digit is left of the point and the answer is 0 |
| FloatRounding.NoExpFloatStrToIntStr | allegro_poset/convert.rs:1497-1533 | the same for a literal with a dot and no exponent, but only a minus is kept, and not before a single 0 |
| FloatRounding.SpellingIsUnique | allegro_poset/convert.rs:1365-1533 | value and spelling together leave a single text as the answer |
| FloatRounding.PlainSigns | allegro_poset/convert.rs:1525-1533 | without an exponent the answer is never a signed zero, has a minus if and only if the literal has one and the answer is not 0, and never a plus |
| FloatRounding.ExpLiteralOf | allegro_poset/convert.rs:1365-1404 | every float literal with an exponent has the layout the conversion expects |
| Values.CompareIsTheOrder | allegro_poset/types.rs:452-530 | which order it is, told from the contents: larger numbers, instants, uuids, later texts and names and true first; collections by their first differing item or their length, reversed at every level; across kinds the sequence of sixteen, but two keywords by name |
| Values.CompareIsAntisymmetric | allegro_poset/types.rs:509-530 | swapping operands reverses the result and only equal values compare equal, at any nesting |
| Values.CompareIsTransitive | allegro_poset/types.rs:452-530 | the order is transitive, strictly as soon as one step is strict |
| SpannedValues.SpansDoNotMatter | allegro_poset/types.rs:162-188 | comparing spanned values equals comparing them after the spans are dropped and sets and maps are collected anew |
| SpannedValues.SpannedOrder | allegro_poset/types.rs:629-645 | the spanned comparison is antisymmetric and transitive as well |
| SpannedValues.OnlySpansAreDropped | allegro_poset/types.rs:162-188 | dropping the spans leaves the same value, item by item at every level |
| SpannedValues.CollectingSorts | allegro_poset/types.rs:178 | collecting any items gives exactly these items in ascending order |
| SpannedValues.CollectingKeepsLatest | allegro_poset/types.rs:179 | collecting any entries gives the latest entry of each key in ascending order of keys |
| Upsert.LightlikeUpsert.Witness | allegro_poset/lightlike_upsert.rs:517-587 | one event moves its key between the three groups, or panics |
| Upsert.RunByKey | allegro_poset/lightlike_upsert.rs:517-564 | what a run says about a key depends on the events about that key alone |
| Upsert.PanicsIffUnpaired | allegro_poset/lightlike_upsert.rs:541-561 | an unwrap fails if and only if some key sees the same kind of event twice in a pair |
| Upsert.AssertedAndRetractedAreDisjoint | allegro_poset/lightlike_upsert.rs:517-564 | no key is ever both asserted and retracted |
| Upsert.GroupsDependOnKindsOnly | allegro_poset/lightlike_upsert.rs:517-564 | with at most one add and one retract per key nothing panics, and each key ends in exactly one group, the same for every order |
| Upsert.AlteredPairNeedsRetractionFirst | allegro_poset/lightlike_upsert.rs:532-562 | the altered pair reads (retracted, added) if and only if the retraction came first or the values are equal |
| NameMaps.Topograph.UpdateNames | allegro_poset/spacetime.rs:694-712 | the three loops apply one change per entity to both tables and report it |
| NameMaps.AssertedNameBelongs | allegro_poset/spacetime.rs:695-699 | an asserted name belongs to its entity unless a later assertion, an alteration or a retraction touches it |
| NameMaps.AlteredNameBelongs | allegro_poset/spacetime.rs:701-706 | the new name of an alteration belongs to its entity unless a later alteration or a retraction touches it, whoever was asserted under it |
| NameMaps.RetractedNameIsNobodys | allegro_poset/spacetime.rs:708-712 | a retracted name belongs to nobody afterwards, whoever else is given it |
| NameMaps.ReportIsComplete | allegro_poset/spacetime.rs:694-712 | the report holds exactly the entities mentioned |
| NameMaps.ReportNamesChange | allegro_poset/spacetime.rs:694-712 | the report gives each entity's new name, or the one it lost |
| NameMaps.InverseIffGivenLastAndSpared | allegro_poset/spacetime.rs:694-712 | for changes of distinct entities that start from the present name or go back to it, so also for reversed pairs, the tables stay mutually inverse if and only if no name is touched after it is given and no name of an unmentioned entity is touched |
| NameMaps.InverseIffNamesAreFree | allegro_poset/spacetime.rs:694-712 | the special case of changes that all start from the present name: the tables stay mutually inverse if and only if new names are distinct and free when given |
| NameMaps.SwapBreaksInverse | allegro_poset/spacetime.rs:701-704 | swapping two names loses one of them |
| TopographUpdate.NamedAsIntendedIffNotLate | allegro_poset/spacetime.rs:645-712 | for every list of events with at most one add and one retract per entity, grouped and applied in key order, an entity ends with its intended name if and only if its name was not retracted after being added with another value |
| TopographUpdate.TransactionKeepsInverseIffGivenLastAndSpared | allegro_poset/spacetime.rs:645-712 | every transaction about the tables, with late retractions or without, keeps them mutually inverse if and only if no name is touched after it is given and no name of an unmentioned entity is touched |
| TopographUpdate.LateButInverse | allegro_poset/spacetime.rs:701-704 | a transaction with a late retraction whose new name another entity holds, and the tables stay inverse |
| TopographUpdate.LateAndBroken | allegro_poset/spacetime.rs:701-704 | a transaction with a late retraction whose new name was unused before, and the tables do not stay inverse |
| TopographUpdate.TransactionKeepsInverseIffNamesAreFree | allegro_poset/spacetime.rs:645-712 | the special case without late retractions: events about the tables give every entity its intended name, and keep the tables mutually inverse if and only if new names are free when given |
| TopographUpdate.ReversedPairDropsNewName | allegro_poset/spacetime.rs:701-704 | one late retraction by itself leaves the names as they were and takes the new name out of the id table; the tables stay inverse if and only if nobody held it. For whole transactions see TransactionKeepsInverseIffGivenLastAndSpared |
| TopographUpdate.RenameNeedsRetractionFirst | allegro_poset/spacetime.rs:701-704 | the smallest case, with both tables: a rename takes effect if its retraction is seen first, and does nothing if its addition is |
| TopographUpdate.AttributeMap.RemoveRetracted | allegro_poset/spacetime.rs:349-400 | removes exactly the attributes both of whose defining facts are retracted, demands that their names are retracted too, and hands every other retraction on; on failure exactly those met before the first uncovered one are gone |
| ReadPool.UnifiedPool.TestLimit | soliton/read_pool.rs:142-148 | a thread passes exactly when fewer tasks are running than allowed, and the bound on running tasks is kept |
| ReadPool.UnifiedPool.Admit | soliton/read_pool.rs:150-165 | the increment of a thread that passed keeps the bound, however many others passed meanwhile |
| ReadPool.OvershootIsBounded | soliton/read_pool.rs:142-165 | over every interleaving the running tasks are those admitted less those finished, and at most the limit plus threads less one |
| ReadPool.OvershootIsReached | soliton/read_pool.rs:142-165 | for every limit of at least one and every number of threads some interleaving reaches that bound |

## Left out

- Allocator: `alloc` and the tail of `allocate` after a candidate is found taken (514-537), the doubled mutex locks, threads interleaving their allocations in one transaction, and 64-bit overflow of window starts.
- Sentinel: `on_min_ts`, the dispatch of command batches and `sink_admin`, which add no state of their own; thread plumbing, connection ids and logging.
- Downstream: the sink is always present and sending never fails; the log of a subscriber is everything sent to it.
- Sentinels.Sentinel.Subscribe: comparing epochs is equality of versions, as the arguments of the call select; the event's region details are left out.
- Sentinels.Sentinel.SinkData: rows are broadcast as a map by key, because the iteration order of a hash map is not an order.
- Datums.Buffer.WriteDatum: floats, decimals, times and JSON are left out, because their types live in code not shown; reading or splitting them yields a separate outcome. Descending splits are not modelled.
- KeyOrder.SameTypeCompares: comparisons between different types that go through a float, decimal or duration are outcomes without a value here.
- Arithmetic: float and decimal operands, and the error of operands of other types.
- Columns.QuiesceBatchColumn.EnsureDecoded: columns of integers only, because the other column types live in code not shown.
- Columns.QuiesceBatchColumn.Encode: columns of integers only, as above.
- Columns.LazyDecodingIsUnobservable: each output cell holds exactly one integer datum or null; the chunk format and size estimates are left out.
- Numbers in text: the wrappers at convert.rs:1208-1363 and the prologues at 1429-1432 and 1483-1495 are damaged; the bodies they lead to are modelled. The session flags that turn the truncation error into a warning are the boolean `truncated` here.
- FloatPrefix.GetValidIntPrefix: outside SELECT (convert.rs:1092-1094) the float prefix goes to a damaged wrapper; the scan and the conversion bodies it leads to are modelled by themselves.
- Upsert.LightlikeUpsert.Witness: no arm of the code handles an event that is both an assertion and a retraction.
- NameMaps: the identifier indexes and the report's kinds of change other than names.
- TopographUpdate: attribute construction from triples, whose builder is not part of this model.
- Values: floats, instants and uuids are given by their position in their own total order.
- ReadPool: the other pools, the futures themselves and the scheduling of tasks.
