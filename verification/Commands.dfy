/** What raft commands and scans yield, told from the fields of their records: which lock events, which rows,
    and when a command fails. */
module Commands {
  import opened Common
  import opened ChangeEvents
  import opened SinkRows
  import opened LockReplay
  import opened ScanBatches
  import Sentinels

  // ------------------------------------------------------------- lock events

  /** A write or lock record of a type the feed knows. */
  predicate IsKnown(r: Request) {
    (r.WritePut? && r.write.writeType != OtherWrite) || (r.LockPut? && r.lock.lockType != OtherLock)
  }

  function KnownIn(reqs: seq<Request>): nat {
    if reqs == [] then 0 else KnownIn(reqs[..|reqs| - 1]) + if IsKnown(reqs[|reqs| - 1]) then 1 else 0
  }

  /** A write record ends the lock of its key and start timestamp, committed at the timestamp of its key unless
      that is 0 or it is a rollback; a lock record starts one. */
  predicate Announces(r: Request, op: LockOp) {
    match (r, op)
    case (WritePut(w), Untrack(key, startTs, commitTs)) =>
      && w.writeType != OtherWrite && key == w.key && startTs == w.startTs
      && (commitTs.None? <==> w.writeType == RollbackWrite || w.versionTs == 0)
      && (commitTs.Some? ==> commitTs.value == w.versionTs)
    case (LockPut(l), Track(key, startTs)) => l.lockType != OtherLock && key == l.key && startTs == l.ts
    case _ => false
  }

  lemma OneRequest(r: Request)
    ensures |OpsOf(r)| == if IsKnown(r) then 1 else 0
    ensures IsKnown(r) ==> Announces(r, OpsOf(r)[0])
  { }

  lemma AllOpsSnoc(reqs: seq<Request>, i: nat)
    requires i < |reqs|
    ensures AllOps(reqs[..i + 1]) == AllOps(reqs[..i]) + OpsOf(reqs[i])
    ensures KnownIn(reqs[..i + 1]) == KnownIn(reqs[..i]) + if IsKnown(reqs[i]) then 1 else 0
  {
    assert reqs[..i + 1][..i] == reqs[..i];
  }

  lemma {:induction false} OpsAreCounted(reqs: seq<Request>, i: nat)
    requires i <= |reqs|
    ensures |AllOps(reqs[..i])| == KnownIn(reqs[..i])
    decreases i
  {
    if i > 0 {
      OpsAreCounted(reqs, i - 1);
      AllOpsSnoc(reqs, i - 1);
      OneRequest(reqs[i - 1]);
    }
  }

  lemma {:induction false} OpsGrow(reqs: seq<Request>, i: nat, n: nat)
    requires i <= n <= |reqs|
    ensures AllOps(reqs[..i]) <= AllOps(reqs[..n])
    decreases n
  {
    if i < n {
      OpsGrow(reqs, i, n - 1);
      AllOpsSnoc(reqs, n - 1);
    }
  }

  /** Every known record gives rise to exactly one lock event, no other request to any, in the order of the
      requests. */
  lemma LockEventsOfRecords(reqs: seq<Request>, i: nat)
    requires i < |reqs|
    ensures |AllOps(reqs)| == KnownIn(reqs)
    ensures IsKnown(reqs[i]) ==>
      KnownIn(reqs[..i]) < |AllOps(reqs)| && Announces(reqs[i], AllOps(reqs)[KnownIn(reqs[..i])])
  {
    assert reqs[..|reqs|] == reqs;
    OpsAreCounted(reqs, |reqs|);
    OpsAreCounted(reqs, i);
    OneRequest(reqs[i]);
    AllOpsSnoc(reqs, i);
    OpsGrow(reqs, i + 1, |reqs|);
  }

  // ------------------------------------------------------------- rows

  predicate IsAbout(r: Request, key: Bytes) {
    match r
    case WritePut(w) => w.writeType != OtherWrite && w.key == key
    case LockPut(l) => l.lockType != OtherLock && l.key == key
    case DefaultPut(k, _) => k == key
    case _ => false
  }

  /** The value a request carries: a record's short value, or that of a default put. */
  function Carried(r: Request): Bytes {
    match r
    case WritePut(w) => w.short.GetOr("")
    case LockPut(l) => l.short.GetOr("")
    case DefaultPut(_, value) => value
    case _ => ""
  }

  /** The last value carried for a key that is not empty. */
  function LastValue(reqs: seq<Request>, key: Bytes): Bytes {
    if reqs == [] then ""
    else
      var last := reqs[|reqs| - 1];
      if IsAbout(last, key) && Carried(last) != "" then Carried(last) else LastValue(reqs[..|reqs| - 1], key)
  }

  /** The last known record about a key. */
  function LastRecord(reqs: seq<Request>, key: Bytes): Option<Request> {
    if reqs == [] then None
    else
      var last := reqs[|reqs| - 1];
      if IsAbout(last, key) && IsKnown(last) then Some(last) else LastRecord(reqs[..|reqs| - 1], key)
  }

  predicate Mentioned(reqs: seq<Request>, key: Bytes) {
    exists r | r in reqs :: IsAbout(r, key)
  }

  /** The row's fields other than its value are those of the record; without one they are empty, the key too. */
  predicate FieldsFrom(row: EventRow, record: Option<Request>) {
    match record
    case Some(WritePut(w)) =>
      && row.key == w.key && row.startTs == w.startTs
      && row.commitTs == (if w.writeType == RollbackWrite then 0 else w.versionTs)
      && row.op == (if w.writeType == PutWrite then Put else if w.writeType == DeleteWrite then Delete else Unknown)
      && row.logType == (if w.writeType == RollbackWrite then Rollback else Commit)
    case Some(LockPut(l)) =>
      && row.key == l.key && row.startTs == l.ts && row.commitTs == 0
      && row.op == (if l.lockType == PutLock then Put else Delete) && row.logType == Prewrite
    case Some(_) => false
    case None => row.key == "" && row.startTs == 0 && row.commitTs == 0 && row.op == Unknown && row.logType == Unset
  }

  /** The command fails at a request in a family that does not exist, at a write record whose key was mentioned
      before, and at a lock record with a value if an earlier request carried one for its key. */
  predicate FailsAt(before: seq<Request>, r: Request) {
    || r.UnknownFamily?
    || (r.WritePut? && IsKnown(r) && Mentioned(before, r.write.key))
    || (r.LockPut? && IsKnown(r) && Carried(r) != "" && LastValue(before, r.lock.key) != "")
  }

  /** Every default put counts the value its key then has. */
  function SizeOf(reqs: seq<Request>): nat {
    if reqs == [] then 0
    else
      var n := |reqs| - 1;
      SizeOf(reqs[..n]) + if reqs[n].DefaultPut? then |LastValue(reqs, reqs[n].key)| else 0
  }

  ghost predicate RowTold(reqs: seq<Request>, rows: map<Bytes, EventRow>, key: Bytes) {
    && (key in rows <==> Mentioned(reqs, key))
    && (key in rows ==> rows[key].value == LastValue(reqs, key) && FieldsFrom(rows[key], LastRecord(reqs, key)))
  }

  ghost predicate Told(reqs: seq<Request>, s: Rows) {
    s.size == SizeOf(reqs) && forall key :: RowTold(reqs, s.rows, key)
  }

  lemma MentionedSnoc(before: seq<Request>, r: Request, key: Bytes)
    ensures Mentioned(before + [r], key) <==> Mentioned(before, key) || IsAbout(r, key)
    ensures LastValue(before + [r], key) ==
            if IsAbout(r, key) && Carried(r) != "" then Carried(r) else LastValue(before, key)
    ensures LastRecord(before + [r], key) ==
            if IsAbout(r, key) && IsKnown(r) then Some(r) else LastRecord(before, key)
  {
    assert (before + [r])[..|before|] == before;
  }

  lemma {:induction false} NothingCarried(reqs: seq<Request>, key: Bytes)
    requires !Mentioned(reqs, key)
    ensures LastValue(reqs, key) == "" && LastRecord(reqs, key) == None
    decreases |reqs|
  {
    if reqs != [] {
      NothingCarried(reqs[..|reqs| - 1], key);
    }
  }

  /** The key a request touches, if it touches one. */
  lemma TouchedKey(r: Request, key: Bytes)
    ensures IsAbout(r, key) <==> HasKey(EffectOf(r)) && EffectOf(r).key == key
  { }

  lemma RowAfter(before: seq<Request>, s: Rows, r: Request)
    requires HasKey(EffectOf(r)) && RowTold(before, s.rows, EffectOf(r).key)
    ensures Merge(s, r).None? <==> FailsAt(before, r)
    ensures Merge(s, r).Some? ==> RowTold(before + [r], Merge(s, r).value.rows, EffectOf(r).key)
  {
    var key := EffectOf(r).key;
    TouchedKey(r, key);
    MentionedSnoc(before, r, key);
    if !Mentioned(before, key) {
      NothingCarried(before, key);
    }
  }

  lemma ToldStep(before: seq<Request>, s: Rows, r: Request)
    requires Told(before, s)
    ensures Merge(s, r).None? <==> FailsAt(before, r)
    ensures Merge(s, r).Some? ==> Told(before + [r], Merge(s, r).value)
  {
    var after := before + [r];
    if HasKey(EffectOf(r)) {
      RowAfter(before, s, r);
    }
    if Merge(s, r).Some? {
      forall key ensures RowTold(after, Merge(s, r).value.rows, key) {
        TouchedKey(r, key);
        MentionedSnoc(before, r, key);
        assert RowTold(before, s.rows, key);
      }
      assert after[..|before|] == before;
    }
  }

  lemma MergeSnoc(reqs: seq<Request>)
    requires reqs != []
    ensures RowsOf(reqs) == MergeNext(RowsOf(reqs[..|reqs| - 1]), reqs[|reqs| - 1])
  {
    var front, last := reqs[..|reqs| - 1], reqs[|reqs| - 1];
    assert reqs == front + [last];
    MergeConcat(Some(NO_ROWS), front, [last]);
    assert [last][1..] == [];
    assert MergeAll(RowsOf(front), [last]) == MergeAll(MergeNext(RowsOf(front), last), []);
  }

  /** A command fails exactly if some request does. Otherwise every key mentioned has one row, with the fields of
      the last record about it and the last value carried for it, and the size counts the default puts. */
  lemma {:induction false} RowsOfRecords(reqs: seq<Request>)
    ensures RowsOf(reqs).None? <==> exists i :: 0 <= i < |reqs| && FailsAt(reqs[..i], reqs[i])
    ensures RowsOf(reqs).Some? ==> Told(reqs, RowsOf(reqs).value)
    decreases |reqs|
  {
    if reqs == [] {
      forall key ensures RowTold(reqs, NO_ROWS.rows, key) { }
    } else {
      var n := |reqs| - 1;
      var front := reqs[..n];
      assert reqs == front + [reqs[n]];
      RowsOfRecords(front);
      MergeSnoc(reqs);
      assert forall i :: 0 <= i < n ==> front[..i] == reqs[..i] && front[i] == reqs[i];
      if RowsOf(front).Some? {
        ToldStep(front, RowsOf(front).value, reqs[n]);
      }
    }
  }

  // ------------------------------------------------------------- a command that fails

  lemma {:induction false} FailureStops(reqs: seq<Request>, s: Rows, i: nat)
    requires i < |reqs| && MergeAll(Some(s), reqs[..i]).Some?
    requires Merge(MergeAll(Some(s), reqs[..i]).value, reqs[i]).None?
    ensures Sentinels.DeliveredOps(s, reqs) == AllOps(reqs[..i]) + if reqs[i].WritePut? then OpsOf(reqs[i]) else []
    decreases |reqs|
  {
    var none: seq<LockOp> := [];
    if i == 0 {
      assert reqs[..0] == [];
      assert none + OpsOf(reqs[0]) == OpsOf(reqs[0]);
      FailingRequest(s, reqs[0]);
    } else {
      assert reqs[..i][1..] == reqs[1..][..i - 1] && reqs[..i][0] == reqs[0];
      PanicIsFinal(reqs[..i][1..]);
      FailureStops(reqs[1..], Merge(s, reqs[0]).value, i - 1);
      Sentinels.AllOpsFront(reqs[..i]);
      Associative(OpsOf(reqs[0]), AllOps(reqs[1..][..i - 1]), if reqs[i].WritePut? then OpsOf(reqs[i]) else none);
    }
  }

  lemma FailingRequest(s: Rows, r: Request)
    requires Merge(s, r).None?
    ensures Sentinels.Attempted(s, r) == if r.WritePut? then OpsOf(r) else []
  { }

  lemma NothingFailsBefore(reqs: seq<Request>, i: nat)
    requires i <= |reqs| && forall j :: 0 <= j < i ==> !FailsAt(reqs[..j], reqs[j])
    ensures RowsOf(reqs[..i]).Some? && Told(reqs[..i], RowsOf(reqs[..i]).value)
  {
    var front := reqs[..i];
    forall j | 0 <= j < |front| ensures !FailsAt(front[..j], front[j]) {
      assert front[..j] == reqs[..j] && front[j] == reqs[j];
    }
    RowsOfRecords(front);
  }

  /** A failing command delivers the lock events of the requests before the first failing one, and that one's too
      if it is a write record, whose event precedes the failed assertion. */
  lemma FailingCommandDelivers(reqs: seq<Request>, i: nat)
    requires i < |reqs| && FailsAt(reqs[..i], reqs[i]) && forall j :: 0 <= j < i ==> !FailsAt(reqs[..j], reqs[j])
    ensures Sentinels.DeliveredOps(NO_ROWS, reqs) ==
            AllOps(reqs[..i]) + if reqs[i].WritePut? then OpsOf(reqs[i]) else []
    ensures AllOps(reqs[..i + 1]) == AllOps(reqs[..i]) + OpsOf(reqs[i])
  {
    NothingFailsBefore(reqs, i);
    ToldStep(reqs[..i], RowsOf(reqs[..i]).value, reqs[i]);
    FailureStops(reqs, NO_ROWS, i);
    AllOpsSnoc(reqs, i);
  }

  // ------------------------------------------------------------- scans

  /** Known records are shown, but for rollbacks, and so is the end of the scan. */
  predicate IsShown(e: ScanEntry) {
    match e
    case PrewriteEntry(l, _) => l.lockType != OtherLock
    case CommitEntry(w, _) => w.writeType == PutWrite || w.writeType == DeleteWrite
    case Finished => true
  }

  function ShownIn(entries: seq<ScanEntry>): nat {
    if entries == [] then 0 else ShownIn(entries[..|entries| - 1]) + if IsShown(entries[|entries| - 1]) then 1 else 0
  }

  /** The row has the fields of the record, a commit being marked as committed, and the default value unless it is
      empty; the end of the scan is an empty row of its own type. */
  predicate Shows(e: ScanEntry, row: EventRow) {
    match e
    case PrewriteEntry(l, default) =>
      FieldsFrom(row, Some(LockPut(l))) && row.value == if default != "" then default else l.short.GetOr("")
    case CommitEntry(w, default) =>
      && FieldsFrom(row.(logType := Commit), Some(WritePut(w))) && row.logType == Committed
      && row.value == if default != "" then default else w.short.GetOr("")
    case Finished =>
      FieldsFrom(row.(logType := Unset), None) && row.logType == Initialized && row.value == ""
  }

  lemma OneEntry(e: ScanEntry)
    ensures RowOf(e).Some? <==> IsShown(e)
    ensures IsShown(e) ==> Shows(e, RowOf(e).value)
  { }

  lemma ShownSnoc(entries: seq<ScanEntry>, i: nat)
    requires i < |entries|
    ensures ShownIn(entries[..i + 1]) == ShownIn(entries[..i]) + if IsShown(entries[i]) then 1 else 0
  {
    assert entries[..i + 1][..i] == entries[..i];
  }

  lemma {:induction false} RowsAreCounted(entries: seq<ScanEntry>, i: nat)
    requires i <= |entries|
    ensures |RowsOfScan(entries[..i])| == ShownIn(entries[..i])
    decreases i
  {
    if i > 0 {
      RowsAreCounted(entries, i - 1);
      RowsOfScanSnoc(entries, i - 1);
      ShownSnoc(entries, i - 1);
      OneEntry(entries[i - 1]);
    }
  }

  lemma {:induction false} RowsGrow(entries: seq<ScanEntry>, i: nat, n: nat)
    requires i <= n <= |entries|
    ensures RowsOfScan(entries[..i]) <= RowsOfScan(entries[..n])
    decreases n
  {
    if i < n {
      RowsGrow(entries, i, n - 1);
      RowsOfScanSnoc(entries, n - 1);
    }
  }

  /** A scan yields one row for every entry that is shown, and no other, in the order of the entries. */
  lemma RowsOfEntries(entries: seq<ScanEntry>, i: nat)
    requires i < |entries|
    ensures |RowsOfScan(entries)| == ShownIn(entries)
    ensures IsShown(entries[i]) ==>
      ShownIn(entries[..i]) < |RowsOfScan(entries)| && Shows(entries[i], RowsOfScan(entries)[ShownIn(entries[..i])])
  {
    assert entries[..|entries|] == entries;
    RowsAreCounted(entries, |entries|);
    RowsAreCounted(entries, i);
    OneEntry(entries[i]);
    RowsOfScanSnoc(entries, i);
    ShownSnoc(entries, i);
    RowsGrow(entries, i + 1, |entries|);
  }
}
