/** Cutting the rows of an initial scan into batches of bounded size. */
module ScanBatches {
  import opened Common
  import opened ChangeEvents

  const EVENT_MAX_SIZE: nat := 6 * 1024 * 1024

  /** `Finished` ends the scan. */
  datatype ScanEntry =
    | PrewriteEntry(lock: LockRecord, default: Bytes)
    | CommitEntry(write: WriteRecord, default: Bytes)
    | Finished

  const INITIALIZED := EMPTY_ROW.(logType := Initialized)

  /** The row an entry yields; records that are skipped and rollbacks yield none. */
  function RowOf(e: ScanEntry): Option<EventRow> {
    match e
    case PrewriteEntry(l, v) => (match DecodeLock(l) case None => None case Some(row) => Some(DecodeDefault(v, row)))
    case CommitEntry(w, v) =>
      (match DecodeWrite(w)
       case None => None
       case Some(row) =>
         var full := DecodeDefault(v, row);
         if full.logType == Rollback then None else Some(full.(logType := Committed)))
    case Finished => Some(INITIALIZED)
  }

  function RowsOfScan(entries: seq<ScanEntry>): seq<EventRow> {
    if entries == [] then []
    else
      var row := RowOf(entries[|entries| - 1]);
      RowsOfScan(entries[..|entries| - 1]) + if row.Some? then [row.value] else []
  }

  function RowSize(row: EventRow): nat { |row.key| + |row.value| }

  function DataSize(rows: seq<EventRow>): nat {
    if rows == [] then 0 else DataSize(rows[..|rows| - 1]) + RowSize(rows[|rows| - 1])
  }

  /** All rows but the ones that mark the end of the scan. */
  function DataRows(rows: seq<EventRow>): nat {
    if rows == [] then 0 else DataRows(rows[..|rows| - 1]) + if rows[|rows| - 1] == INITIALIZED then 0 else 1
  }

  type Batch = (nat, seq<EventRow>)

  function Concat(batches: seq<Batch>): seq<EventRow> {
    if batches == [] then [] else Concat(batches[..|batches| - 1]) + batches[|batches| - 1].1
  }

  function NonEmpty(batches: seq<Batch>): seq<Batch> {
    if batches == [] then []
    else
      var last := batches[|batches| - 1];
      NonEmpty(batches[..|batches| - 1]) + if last.1 != [] then [last] else []
  }

  /** No data row took its batch to the limit, except the row for which the batch was opened. */
  predicate Filled(rows: seq<EventRow>, wasOpened: bool, maxSize: nat) {
    rows == [] ||
    (Filled(rows[..|rows| - 1], wasOpened, maxSize) &&
     (rows[|rows| - 1] == INITIALIZED || (wasOpened && |rows| == 1) || DataSize(rows) < maxSize))
  }

  /** A batch was closed only because its successor's first row did not fit. */
  predicate CutWhenFull(before: seq<EventRow>, after: seq<EventRow>, maxSize: nat) {
    after != [] && after[0] != INITIALIZED && DataSize(before) + RowSize(after[0]) >= maxSize
  }

  /** Closed batches before rows that are still open: each was cut when full and carries its exact size. */
  predicate Closed(batches: seq<Batch>, next: seq<EventRow>, maxSize: nat) {
    batches == [] ||
    (var n := |batches| - 1;
     var (size, rows) := batches[n];
     size == DataSize(rows) && Filled(rows, n > 0, maxSize) && CutWhenFull(rows, next, maxSize) &&
     Closed(batches[..n], rows, maxSize))
  }

  predicate WellCut(batches: seq<Batch>, maxSize: nat) {
    && batches != []
    && var n := |batches| - 1;
       batches[n].0 == 0 && Filled(batches[n].1, n > 0, maxSize) && Closed(batches[..n], batches[n].1, maxSize)
  }

  /** What the subscriber gets: nothing is lost, repeated or reordered, every cut is forced, and every batch
      carries its exact size, except the last one, whose size is never written. */
  ghost predicate IsCut(entries: seq<ScanEntry>, batches: seq<Batch>, maxSize: nat) {
    Concat(batches) == RowsOfScan(entries) && WellCut(batches, maxSize)
  }

  lemma RowsSnoc(rows: seq<EventRow>, row: EventRow)
    ensures DataSize(rows + [row]) == DataSize(rows) + RowSize(row)
  {
    assert (rows + [row])[..|rows|] == rows;
  }

  lemma FilledSnoc(rows: seq<EventRow>, row: EventRow, wasOpened: bool, maxSize: nat)
    requires Filled(rows, wasOpened, maxSize)
    requires row == INITIALIZED || (wasOpened && rows == []) || DataSize(rows) + RowSize(row) < maxSize
    ensures Filled(rows + [row], wasOpened, maxSize)
  {
    RowsSnoc(rows, row);
    assert (rows + [row])[..|rows|] == rows;
  }

  /** A batch stays under the limit, or holds a single data row. */
  lemma {:induction false} BatchesAreSmall(rows: seq<EventRow>, wasOpened: bool, maxSize: nat)
    requires Filled(rows, wasOpened, maxSize) && maxSize > 0
    ensures DataSize(rows) < maxSize || DataRows(rows) == 1
    decreases |rows|
  {
    if rows != [] {
      BatchesAreSmall(rows[..|rows| - 1], wasOpened, maxSize);
    }
  }

  lemma ConcatSnoc(batches: seq<Batch>, b: Batch)
    ensures Concat(batches + [b]) == Concat(batches) + b.1
  {
    assert (batches + [b])[..|batches|] == batches;
  }

  lemma RowsOfScanSnoc(entries: seq<ScanEntry>, i: nat)
    requires i < |entries|
    ensures RowsOfScan(entries[..i + 1]) ==
            RowsOfScan(entries[..i]) + if RowOf(entries[i]).Some? then [RowOf(entries[i]).value] else []
  {
    assert entries[..i + 1][..i] == entries[..i];
  }

  /** Batch by batch what a cut guarantees. */
  lemma {:induction false} ClosedBatch(batches: seq<Batch>, next: seq<EventRow>, maxSize: nat, k: nat)
    requires Closed(batches, next, maxSize) && k < |batches|
    ensures batches[k].0 == DataSize(batches[k].1) && Filled(batches[k].1, k > 0, maxSize)
    ensures CutWhenFull(batches[k].1, if k + 1 < |batches| then batches[k + 1].1 else next, maxSize)
    decreases |batches|
  {
    var n := |batches| - 1;
    if k < n {
      ClosedBatch(batches[..n], batches[n].1, maxSize, k);
    }
  }

  /** The greedy step: a data row that does not fit closes the last batch. */
  function Add(batches: seq<Batch>, row: EventRow, maxSize: nat): seq<Batch>
    requires batches != []
  {
    var n := |batches| - 1;
    AddTo(batches[..n], batches[n].1, row, maxSize)
  }

  function AddTo(p: seq<Batch>, rows: seq<EventRow>, row: EventRow, maxSize: nat): seq<Batch> {
    if row != INITIALIZED && DataSize(rows) + RowSize(row) >= maxSize
    then p + [(DataSize(rows), rows)] + [(0, [row])]
    else p + [(0, rows + [row])]
  }

  /** Cuts are lists of closed batches and one open one. */
  lemma WellCutSnoc(p: seq<Batch>, rows: seq<EventRow>, maxSize: nat)
    ensures WellCut(p + [(0, rows)], maxSize) <==> Filled(rows, |p| > 0, maxSize) && Closed(p, rows, maxSize)
  {
    assert (p + [(0, rows)])[..|p|] == p;
  }

  lemma ClosedSnoc(p: seq<Batch>, size: nat, rows: seq<EventRow>, next: seq<EventRow>, maxSize: nat)
    ensures Closed(p + [(size, rows)], next, maxSize) <==>
            size == DataSize(rows) && Filled(rows, |p| > 0, maxSize) && CutWhenFull(rows, next, maxSize) &&
            Closed(p, rows, maxSize)
  {
    assert (p + [(size, rows)])[..|p|] == p;
  }

  lemma SameFirstRow(p: seq<Batch>, a: seq<EventRow>, b: seq<EventRow>, maxSize: nat)
    requires Closed(p, a, maxSize) && (p == [] || (a != [] && b != [] && a[0] == b[0]))
    ensures Closed(p, b, maxSize)
  { }

  lemma NonEmptyAfterCut(p: seq<Batch>, next: seq<EventRow>, maxSize: nat)
    requires Closed(p, next, maxSize) && p != []
    ensures next != []
  { }

  lemma AddKeepsCutTo(p: seq<Batch>, rows: seq<EventRow>, row: EventRow, maxSize: nat)
    requires WellCut(p + [(0, rows)], maxSize)
    ensures WellCut(AddTo(p, rows, row, maxSize), maxSize)
    ensures Concat(AddTo(p, rows, row, maxSize)) == Concat(p + [(0, rows)]) + [row]
  {
    WellCutSnoc(p, rows, maxSize);
    ConcatSnoc(p, (0, rows));
    if row != INITIALIZED && DataSize(rows) + RowSize(row) >= maxSize {
      FilledOne(row, maxSize);
      ClosedSnoc(p, DataSize(rows), rows, [row], maxSize);
      WellCutSnoc(p + [(DataSize(rows), rows)], [row], maxSize);
      ConcatSnoc(p, (DataSize(rows), rows));
      ConcatSnoc(p + [(DataSize(rows), rows)], (0, [row]));
    } else {
      FilledSnoc(rows, row, |p| > 0, maxSize);
      if p != [] {
        NonEmptyAfterCut(p, rows, maxSize);
      }
      SameFirstRow(p, rows, rows + [row], maxSize);
      WellCutSnoc(p, rows + [row], maxSize);
      ConcatSnoc(p, (0, rows + [row]));
    }
  }

  lemma FilledOne(row: EventRow, maxSize: nat)
    ensures Filled([row], true, maxSize)
  {
    FilledSnoc([], row, true, maxSize);
    assert [] + [row] == [row];
  }

  lemma LastOpen(batches: seq<Batch>, maxSize: nat) returns (p: seq<Batch>, rows: seq<EventRow>)
    requires WellCut(batches, maxSize)
    ensures batches == p + [(0, rows)] && p == batches[..|batches| - 1] && rows == batches[|batches| - 1].1
  {
    p, rows := batches[..|batches| - 1], batches[|batches| - 1].1;
  }

  lemma AddKeepsCut(batches: seq<Batch>, row: EventRow, maxSize: nat)
    requires WellCut(batches, maxSize)
    ensures WellCut(Add(batches, row, maxSize), maxSize)
    ensures Concat(Add(batches, row, maxSize)) == Concat(batches) + [row]
  {
    var p, rows := LastOpen(batches, maxSize);
    AddKeepsCutTo(p, rows, row, maxSize);
  }

  lemma LastSizeAfterAdd(batches: seq<Batch>, row: EventRow, maxSize: nat)
    requires batches != []
    ensures var rows, r := batches[|batches| - 1].1, Add(batches, row, maxSize);
      DataSize(r[|r| - 1].1) ==
      (if row != INITIALIZED && DataSize(rows) + RowSize(row) >= maxSize then 0 else DataSize(rows)) + RowSize(row)
  {
    OneRowSize(row);
    RowsSnoc(batches[|batches| - 1].1, row);
  }

  lemma OneRowSize(row: EventRow)
    ensures DataSize([row]) == RowSize(row) == |row.key| + |row.value|
  {
    RowsSnoc([], row);
    assert [] + [row] == [row];
  }

  /** A cut of at least one row is a greedy step from a cut of the rows before it. */
  lemma LastStep(batches: seq<Batch>, maxSize: nat) returns (before: seq<Batch>, row: EventRow)
    requires WellCut(batches, maxSize) && Concat(batches) != []
    ensures WellCut(before, maxSize) && Add(before, row, maxSize) == batches
    ensures Concat(batches) == Concat(before) + [row]
  {
    var p, last := LastOpen(batches, maxSize);
    WellCutSnoc(p, last, maxSize);
    ConcatSnoc(p, (0, last));
    if p != [] {
      NonEmptyAfterCut(p, last, maxSize);
    }
    assert last != [];
    var rows := last[..|last| - 1];
    row := last[|last| - 1];
    assert last == rows + [row];
    if p != [] && rows == [] {
      before := UndoCut(p, row, maxSize);
    } else {
      UndoAppend(p, rows, row, maxSize);
      before := p + [(0, rows)];
    }
    AddKeepsCut(before, row, maxSize);
  }

  lemma UndoAppend(p: seq<Batch>, rows: seq<EventRow>, row: EventRow, maxSize: nat)
    requires Filled(rows + [row], |p| > 0, maxSize) && Closed(p, rows + [row], maxSize) && (p == [] || rows != [])
    ensures WellCut(p + [(0, rows)], maxSize) && Add(p + [(0, rows)], row, maxSize) == p + [(0, rows + [row])]
  {
    assert (rows + [row])[..|rows|] == rows;
    RowsSnoc(rows, row);
    SameFirstRow(p, rows + [row], rows, maxSize);
    WellCutSnoc(p, rows, maxSize);
    assert (p + [(0, rows)])[..|p|] == p;
  }

  lemma UndoCut(p: seq<Batch>, row: EventRow, maxSize: nat) returns (before: seq<Batch>)
    requires p != [] && Closed(p, [row], maxSize)
    ensures WellCut(before, maxSize) && Add(before, row, maxSize) == p + [(0, [row])]
  {
    var n := |p| - 1;
    var front := p[..n];
    var (size, rows) := p[n];
    assert p == front + [(size, rows)];
    before := front + [(0, rows)];
    WellCutSnoc(front, rows, maxSize);
    assert before[..n] == front;
  }

  lemma EmptyCut(batches: seq<Batch>, maxSize: nat)
    requires WellCut(batches, maxSize) && Concat(batches) == []
    ensures batches == [(0, [])]
  {
    var p, rows := LastOpen(batches, maxSize);
    ConcatSnoc(p, (0, rows));
    assert rows == [];
    if p != [] {
      NonEmptyAfterCut(p, rows, maxSize);
    }
  }

  /** There is only one way to cut. */
  lemma {:induction false} CutIsUnique(a: seq<Batch>, b: seq<Batch>, maxSize: nat)
    requires WellCut(a, maxSize) && WellCut(b, maxSize) && Concat(a) == Concat(b)
    ensures a == b
    decreases |Concat(a)|
  {
    if Concat(a) == [] {
      EmptyCut(a, maxSize);
      EmptyCut(b, maxSize);
    } else {
      var x, row := LastStep(a, maxSize);
      var y, row' := LastStep(b, maxSize);
      assert Concat(x) == Concat(a)[..|Concat(a)| - 1] && Concat(y) == Concat(a)[..|Concat(a)| - 1];
      CutIsUnique(x, y, maxSize);
    }
  }

  method CutIntoBatches(entries: seq<ScanEntry>, maxSize: nat) returns (batches: seq<Batch>)
    requires maxSize > 0
    ensures IsCut(entries, batches, maxSize)
  {
    batches := [(0, [])];
    NoRowsYet(maxSize);
    var currentRowsSize: nat := 0;
    for i := 0 to |entries|
      invariant IsCut(entries[..i], batches, maxSize)
      invariant currentRowsSize == DataSize(batches[|batches| - 1].1)
    {
      RowsOfScanSnoc(entries, i);
      match entries[i] {
        case PrewriteEntry(lock, default) =>
          var event := DecodeLock(lock);
          if event.None? {
            continue;
          }
          var row := DecodeDefault(default, event.value);
          batches, currentRowsSize := Place(batches, currentRowsSize, row, maxSize);
        case CommitEntry(write, default) =>
          var event := DecodeWrite(write);
          if event.None? {
            continue;
          }
          var row := DecodeDefault(default, event.value);
          if row.logType == Rollback {
            continue;
          }
          row := row.(logType := Committed);
          batches, currentRowsSize := Place(batches, currentRowsSize, row, maxSize);
        case Finished =>
          batches := PushRow(batches, INITIALIZED, maxSize);
      }
    }
    assert entries[..|entries|] == entries;
  }

  lemma NoRowsYet(maxSize: nat)
    ensures IsCut([], [(0, [])], maxSize)
  {
    var none: seq<Batch> := [];
    ConcatSnoc(none, (0, []));
    assert none + [(0, [])] == [(0, [])];
  }

  /** `rows.last_mut().unwrap().1.push(event)`, for a row that fits. */
  method PushRow(batches: seq<Batch>, row: EventRow, maxSize: nat) returns (r: seq<Batch>)
    requires WellCut(batches, maxSize)
    requires row == INITIALIZED || DataSize(batches[|batches| - 1].1) + RowSize(row) < maxSize
    ensures r == Add(batches, row, maxSize) && WellCut(r, maxSize) && Concat(r) == Concat(batches) + [row]
    ensures DataSize(r[|r| - 1].1) == DataSize(batches[|batches| - 1].1) + RowSize(row)
  {
    AddKeepsCut(batches, row, maxSize);
    LastSizeAfterAdd(batches, row, maxSize);
    var n := |batches| - 1;
    r := batches[n := (batches[n].0, batches[n].1 + [row])];
    assert r == batches[..n] + [(0, batches[n].1 + [row])];
  }

  /** A data row: the batch is closed first if the row does not fit. */
  method Place(batches: seq<Batch>, currentSize: nat, row: EventRow, maxSize: nat)
    returns (r: seq<Batch>, size: nat)
    requires WellCut(batches, maxSize) && row != INITIALIZED
    requires currentSize == DataSize(batches[|batches| - 1].1)
    ensures r == Add(batches, row, maxSize) && size == DataSize(r[|r| - 1].1)
    ensures WellCut(r, maxSize) && Concat(r) == Concat(batches) + [row]
  {
    var rowSize := RowSize(row);
    if currentSize + rowSize >= maxSize {
      r := CloseBatch(batches, currentSize, row, maxSize);
      size := rowSize;
    } else {
      r := PushRow(batches, row, maxSize);
      size := currentSize + rowSize;
    }
  }

  /** Writes the size of the last batch and opens a new one with the row. */
  method CloseBatch(batches: seq<Batch>, currentSize: nat, row: EventRow, maxSize: nat) returns (r: seq<Batch>)
    requires WellCut(batches, maxSize) && row != INITIALIZED
    requires currentSize == DataSize(batches[|batches| - 1].1) && currentSize + RowSize(row) >= maxSize
    ensures r == Add(batches, row, maxSize) && WellCut(r, maxSize) && Concat(r) == Concat(batches) + [row]
    ensures DataSize(r[|r| - 1].1) == RowSize(row)
  {
    AddKeepsCut(batches, row, maxSize);
    LastSizeAfterAdd(batches, row, maxSize);
    var n := |batches| - 1;
    r := batches[n := (currentSize, batches[n].1)];
    assert r == batches[..n] + [(currentSize, batches[n].1)];
    r := r + [(0, [row])];
  }
}
