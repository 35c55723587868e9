/** The records a change feed reads and the rows it emits. Byte strings are strings of characters. */
module ChangeEvents {
  import opened Common

  type Bytes = string
  type TimeStamp = nat

  datatype LogType = Unset | Prewrite | Commit | Rollback | Committed | Initialized

  datatype OpType = Unknown | Put | Delete

  datatype EventRow = EventRow(key: Bytes, value: Bytes, startTs: TimeStamp, commitTs: TimeStamp, op: OpType,
                               logType: LogType)

  const EMPTY_ROW := EventRow("", "", 0, 0, Unknown, Unset)

  datatype WriteType = PutWrite | DeleteWrite | RollbackWrite | OtherWrite

  datatype LockType = PutLock | DeleteLock | OtherLock

  /** A parsed write record; `versionTs` is the timestamp carried by its key. */
  datatype WriteRecord = WriteRecord(key: Bytes, versionTs: TimeStamp, writeType: WriteType, startTs: TimeStamp,
                                     short: Option<Bytes>)

  datatype LockRecord = LockRecord(key: Bytes, lockType: LockType, ts: TimeStamp, short: Option<Bytes>)

  /** `None` means the record is skipped. */
  function DecodeWrite(w: WriteRecord): Option<EventRow> {
    var value := w.short.GetOr("");
    match w.writeType
    case PutWrite => Some(EventRow(w.key, value, w.startTs, w.versionTs, Put, Commit))
    case DeleteWrite => Some(EventRow(w.key, value, w.startTs, w.versionTs, Delete, Commit))
    case RollbackWrite => Some(EventRow(w.key, value, w.startTs, 0, Unknown, Rollback))
    case OtherWrite => None
  }

  function DecodeLock(l: LockRecord): Option<EventRow> {
    var value := l.short.GetOr("");
    match l.lockType
    case PutLock => Some(EventRow(l.key, value, l.ts, 0, Put, Prewrite))
    case DeleteLock => Some(EventRow(l.key, value, l.ts, 0, Delete, Prewrite))
    case OtherLock => None
  }

  /** An empty default value leaves the row as it is. */
  function DecodeDefault(value: Bytes, row: EventRow): EventRow {
    if value != "" then row.(value := value) else row
  }
}
