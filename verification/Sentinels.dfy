/** The sentinel of one region: it merges raft commands into rows for its subscribers and feeds lock
    events to a resolver, through a buffer until the region is ready. */
module Sentinels {
  import opened Common
  import opened ChangeEvents
  import opened SinkRows
  import opened LockReplay
  import opened ScanBatches

  datatype Epoch = Epoch(confVer: nat, version: nat)

  datatype Region = Region(id: nat, epoch: Epoch)

  datatype FeedError = NotLeader | EpochNotMatch | RegionNotFound(regionId: nat)

  /** `Changed` carries the rows of one command by key: the iteration order of a hash map is no order. */
  datatype Payload =
    | Changed(rows: map<Bytes, EventRow>)
    | Entries(entries: seq<EventRow>)
    | Failure(error: FeedError)

  datatype Message = Message(requestId: nat, regionId: nat, index: nat, payload: Payload)

  datatype State = Uninitialized | Normal | Stopped

  class Downstream {
    const id: nat
    const reqId: nat
    const epoch: Epoch
    var state: State
    var sent: Log

    constructor (id: nat, reqId: nat, epoch: Epoch)
      ensures this.id == id && this.reqId == reqId && this.epoch == epoch
      ensures state == Uninitialized && sent == []
    {
      this.id, this.reqId, this.epoch := id, reqId, epoch;
      state, sent := Uninitialized, [];
    }

    method SinkEvent(m: Message, size: nat)
      modifies this`sent
      ensures sent == old(sent) + Notice(size, m, this)
    {
      sent := sent + [(size, m.(requestId := reqId))];
    }
  }

  class Gauge {
    var value: int
  }

  type Log = seq<(nat, Message)>

  /** What one event adds to the log of a subscriber it reaches. */
  function Notice(size: nat, m: Message, d: Downstream): Log {
    [(size, m.(requestId := d.reqId))]
  }

  /** The error event that ends a subscription. */
  function Farewell(error: Option<FeedError>, regionId: nat, d: Downstream): Log {
    if error.None? then [] else Notice(0, Message(0, regionId, 0, Failure(error.value)), d)
  }

  /** The merged rows of one command as a subscriber logs them. */
  function RowsNotice(rows: Rows, regionId: nat, index: nat, d: Downstream): Log {
    Notice(rows.size, Message(0, regionId, index, Changed(rows.rows)), d)
  }

  /** An event arrives once, with its size and content, under the request id of the subscriber. */
  lemma NoticeIsAddressed(size: nat, m: Message, d: Downstream)
    ensures var log := Notice(size, m, d);
      && |log| == 1 && log[0].0 == size && log[0].1.requestId == d.reqId
      && log[0].1.regionId == m.regionId && log[0].1.index == m.index && log[0].1.payload == m.payload
  { }

  /** The rows of a command arrive in one event with the size and the index of the command; the end of a
      subscription in one without size, or silently if there is no error. */
  lemma NoticesOfCommandAndEnd(rows: Rows, regionId: nat, index: nat, error: Option<FeedError>, d: Downstream)
    ensures RowsNotice(rows, regionId, index, d) == [(rows.size, Message(d.reqId, regionId, index, Changed(rows.rows)))]
    ensures Farewell(error, regionId, d) ==
            if error.Some? then [(0, Message(d.reqId, regionId, 0, Failure(error.value)))] else []
  { }

  datatype Pending = Pending(downstreams: seq<Downstream>, locks: seq<LockOp>, bytes: nat)

  ghost predicate Distinct(ds: seq<Downstream>) {
    forall i, j :: 0 <= i < j < |ds| ==> ds[i] != ds[j]
  }

  /** Who a broadcast reaches: the filter is not applied to the last subscriber. */
  function Receives(states: seq<State>, i: nat, normalOnly: bool): bool
    requires i < |states|
  {
    i == |states| - 1 || !normalOnly || states[i].Normal?
  }

  /** A filtered broadcast reaches exactly the normal subscribers if and only if the last one is normal; in any
      case it leaves out no normal subscriber, and an unfiltered one leaves out nobody. */
  lemma FilterHoldsIffLastIsNormal(states: seq<State>)
    requires states != []
    ensures (forall i :: 0 <= i < |states| ==> (Receives(states, i, true) <==> states[i].Normal?))
       <==> states[|states| - 1].Normal?
    ensures forall i :: 0 <= i < |states| && states[i].Normal? ==> Receives(states, i, true)
    ensures forall i :: 0 <= i < |states| - 1 && Receives(states, i, true) ==> states[i].Normal?
    ensures forall i :: 0 <= i < |states| ==> Receives(states, i, false)
  {
    assert Receives(states, |states| - 1, true);
  }

  class Sentinel<R> {
    const id: nat
    const regionId: nat
    const step: ResolverStep<R>
    const gauge: Gauge
    var region: Option<Region>
    var downstreams: seq<Downstream>
    var resolver: Option<R>
    var pending: Option<Pending>
    var enabled: bool
    var failed: bool

    ghost predicate Valid()
      reads this
    {
      && (region.Some? <==> resolver.Some?)
      && (resolver.Some? <==> pending.None?)
      && (pending.Some? ==> downstreams == [] && pending.value.bytes == KeyBytes(pending.value.locks))
      && Distinct(Subscribers())
    }

    /** Pending subscribers until the region is ready, the active ones afterwards. */
    function Subscribers(): seq<Downstream>
      reads this
    {
      if pending.Some? then pending.value.downstreams else downstreams
    }

    ghost function Feed(): Feed<R>
      requires Valid()
      reads this
    {
      if resolver.Some? then Ready(resolver.value) else Buffering(pending.value.locks)
    }

    ghost function States(): seq<State>
      reads this, Subscribers()
    {
      seq(|Subscribers()|, i requires 0 <= i < |Subscribers()| reads this, Subscribers() => Subscribers()[i].state)
    }

    constructor (id: nat, regionId: nat, step: ResolverStep<R>, gauge: Gauge)
      ensures Valid() && Feed() == Buffering([]) && Subscribers() == []
      ensures enabled && !failed && this.gauge == gauge && this.step == step && this.regionId == regionId
    {
      this.id, this.regionId, this.step, this.gauge := id, regionId, step, gauge;
      region, downstreams, resolver := None, [], None;
      pending := Some(Pending([], [], 0));
      enabled, failed := true, false;
    }

    /** Refused, with an error event, if the region is ready at another version. */
    method Subscribe(d: Downstream) returns (ok: bool)
      requires Valid() && d !in Subscribers()
      modifies this`downstreams, this`pending, d`sent
      ensures Valid() && Feed() == old(Feed())
      ensures ok <==> region.None? || d.epoch.version == region.value.epoch.version
      ensures Subscribers() == (if ok then old(Subscribers()) + [d] else old(Subscribers()))
      ensures d.sent == old(d.sent) + Farewell(if ok then None else Some(EpochNotMatch), regionId, d)
    {
      if region.Some? {
        if d.epoch.version != region.value.epoch.version {
          d.SinkEvent(Message(0, regionId, 0, Failure(EpochNotMatch)), 0);
          return false;
        }
        downstreams := downstreams + [d];
      } else {
        pending := Some(pending.value.(downstreams := pending.value.downstreams + [d]));
      }
      return true;
    }

    /** Stops and removes every subscriber with this id, telling it why if there is an error; the feed is
        switched off once nobody is left. */
    method Unsubscribe(downstreamId: nat, error: Option<FeedError>) returns (isLast: bool)
      requires Valid()
      modifies this`downstreams, this`pending, this`enabled, Subscribers()
      ensures Valid() && Feed() == old(Feed())
      ensures Subscribers() == Others(old(Subscribers()), downstreamId)
      ensures isLast <==> Subscribers() == []
      ensures enabled == (old(enabled) && !isLast)
      ensures forall d :: d in old(Subscribers()) && d.id == downstreamId ==>
        d.state == Stopped && d.sent == old(d.sent) + Farewell(error, regionId, d)
      ensures forall d :: d in old(Subscribers()) && d.id != downstreamId ==>
        d.state == old(d.state) && d.sent == old(d.sent)
    {
      var kept := Retire(Subscribers(), downstreamId, error, regionId);
      OthersDistinct(Subscribers(), downstreamId);
      if pending.Some? {
        pending := Some(pending.value.(downstreams := kept));
      } else {
        downstreams := kept;
      }
      isLast := kept == [];
      if isLast {
        enabled := false;
      }
    }

    /** False is the assertion that somebody is listening. */
    method Broadcast(m: Message, size: nat, normalOnly: bool) returns (ok: bool)
      requires Valid()
      modifies Subscribers()`sent
      ensures ok <==> Subscribers() != []
      ensures forall i :: 0 <= i < |Subscribers()| ==>
        Subscribers()[i].sent == old(Subscribers()[i].sent) +
        (if Receives(States(), i, normalOnly) then Notice(size, m, Subscribers()[i]) else [])
    {
      if Subscribers() == [] {
        return false;
      }
      SendToAll(Subscribers(), m, size, normalOnly);
      return true;
    }

    /** Everybody hears of the failure, but only subscribers of a ready region are marked as stopped. */
    method Stop(error: FeedError) returns (ok: bool)
      requires Valid()
      modifies this`failed, this`enabled, Subscribers()
      ensures Valid() && failed && !enabled
      ensures Feed() == old(Feed()) && Subscribers() == old(Subscribers())
      ensures ok <==> Subscribers() != []
      ensures forall d :: d in Subscribers() ==> d.sent == old(d.sent) + Farewell(Some(error), regionId, d)
      ensures forall d :: d in Subscribers() ==> d.state == (if region.Some? then Stopped else old(d.state))
      ensures (forall d :: d in Subscribers() ==> d.state == Stopped) <==>
        (region.Some? || forall d :: d in Subscribers() ==> old(d.state) == Stopped)
    {
      failed := true;
      enabled := false;
      for i := 0 to |downstreams|
        invariant Valid() && failed && !enabled && unchanged(`downstreams)
        invariant forall j :: 0 <= j < i ==> downstreams[j].state == Stopped
        invariant forall d :: d in Subscribers() ==> d.sent == old(d.sent)
        invariant pending.Some? ==> forall d :: d in Subscribers() ==> d.state == old(d.state)
      {
        downstreams[i].state := Stopped;
      }
      ok := Broadcast(Message(0, regionId, 0, Failure(error)), 0, false);
    }

    /** The single lock event: fed to the resolver, or buffered and counted. */
    method OnLock(op: LockOp)
      requires Valid()
      modifies this`resolver, this`pending, gauge
      ensures Valid() && Some(Feed()) == FeedStep(step, old(Feed()), Sink([op]))
      ensures Subscribers() == old(Subscribers())
      ensures gauge.value - Held(Some(Feed())) == old(gauge.value - Held(Some(Feed())))
    {
      if resolver.Some? {
        DeliverOne(step, resolver.value, op);
        resolver := Some(step(resolver.value, op));
      } else {
        var p := pending.value;
        KeyBytesOne(p.locks, op);
        pending := Some(p.(locks := p.locks + [op], bytes := p.bytes + |op.key|));
        gauge.value := gauge.value + |op.key|;
      }
    }

    /** Installs the resolver after replaying the buffer, and hands the pending subscribers back; `None` is
        the assertion that the region was not ready before. */
    method OnRegionReady(newResolver: R, newRegion: Region) returns (r: Option<seq<Downstream>>)
      requires Valid()
      modifies this`region, this`resolver, this`pending, gauge
      ensures Valid() && (r.Some? <==> FeedStep(step, old(Feed()), Install(newResolver)).Some?)
      ensures r.None? ==> unchanged(this) && unchanged(gauge)
      ensures r.Some? ==> Some(Feed()) == FeedStep(step, old(Feed()), Install(newResolver))
      ensures r.Some? ==> r.value == old(Subscribers()) && Subscribers() == [] && region == Some(newRegion)
      ensures gauge.value - Held(Some(Feed())) == old(gauge.value - Held(Some(Feed())))
    {
      if resolver.Some? {
        return None;
      }
      region := Some(newRegion);
      var p := pending.value;
      pending := None;
      var replayed := newResolver;
      for i := 0 to |p.locks|
        invariant replayed == Deliver(step, newResolver, p.locks[..i])
      {
        assert p.locks[..i + 1][..i] == p.locks[..i];
        replayed := step(replayed, p.locks[i]);
      }
      assert p.locks[..|p.locks|] == p.locks;
      resolver := Some(replayed);
      gauge.value := gauge.value - p.bytes;
      return Some(p.downstreams);
    }

    /** The buffer goes with its sentinel. */
    method Drop()
      requires Valid()
      modifies gauge
      ensures gauge.value == old(gauge.value) - Held(Some(Feed()))
    {
      if pending.Some? {
        gauge.value := gauge.value - pending.value.bytes;
      }
    }

    /** A write put: the commit or rollback is untracked before its row is entered, which must be new. */
    method SinkWrite(write: WriteRecord, rows: map<Bytes, EventRow>) returns (ok: bool, newRows: map<Bytes, EventRow>)
      requires Valid()
      modifies this`resolver, this`pending, gauge
      ensures Valid() && Subscribers() == old(Subscribers())
      ensures gauge.value - Held(Some(Feed())) == old(gauge.value - Held(Some(Feed())))
      ensures Some(Feed()) == FeedStep(step, old(Feed()), Sink(OpsOf(WritePut(write))))
      ensures ok <==> DecodeWrite(write).None? || DecodeWrite(write).value.key !in rows
      ensures ok ==> newRows == WriteRows(write, rows)
    {
      ok, newRows := true, rows;
      var event := DecodeWrite(write);
      if event.None? {
        SinkNothing(step, Feed());
        return;
      }
      var row := event.value;
      OnLock(Untrack(row.key, row.startTs, if row.commitTs == 0 then None else Some(row.commitTs)));
      ok := row.key !in rows;
      newRows := rows[row.key := row];
    }

    /** A lock put: it takes over the value of a default put that came before, and is tracked. */
    method SinkLock(lock: LockRecord, rows: map<Bytes, EventRow>) returns (ok: bool, newRows: map<Bytes, EventRow>)
      requires Valid()
      modifies this`resolver, this`pending, gauge
      ensures Valid() && Subscribers() == old(Subscribers())
      ensures gauge.value - Held(Some(Feed())) == old(gauge.value - Held(Some(Feed())))
      ensures var r := LockRows(lock, rows); (ok <==> r.Some?) && (ok ==> newRows == r.value)
      ensures Some(Feed()) == FeedStep(step, old(Feed()), Sink(if ok then OpsOf(LockPut(lock)) else []))
    {
      ok, newRows := true, rows;
      var event := DecodeLock(lock);
      if event.None? {
        SinkNothing(step, Feed());
        return;
      }
      var row := event.value;
      var occupied := if row.key in rows then rows[row.key] else EMPTY_ROW;
      if occupied.value != "" {
        if row.value != "" {
          SinkNothing(step, Feed());
          ok := false;
          return;
        }
        row := row.(value := occupied.value);
      }
      OnLock(Track(row.key, row.startTs));
      newRows := rows[row.key := row];
    }

    /** One request of a command, merged into the rows so far. False is a failed assertion or the panic on
        an unknown column family. */
    method SinkRequest(request: Request, rows: map<Bytes, EventRow>, totalSize: nat)
      returns (ok: bool, newRows: map<Bytes, EventRow>, newSize: nat)
      requires Valid()
      modifies this`resolver, this`pending, gauge
      ensures Valid() && Subscribers() == old(Subscribers())
      ensures gauge.value - Held(Some(Feed())) == old(gauge.value - Held(Some(Feed())))
      ensures var r := Merge(Rows(rows, totalSize), request);
        (ok <==> r.Some?) && (ok ==> r == Some(Rows(newRows, newSize)))
      ensures Some(Feed()) == FeedStep(step, old(Feed()), Sink(Attempted(Rows(rows, totalSize), request)))
    {
      ok, newRows, newSize := true, rows, totalSize;
      match request {
        case OtherCommand =>
          SinkNothing(step, Feed());
        case WritePut(write) =>
          MergeWrite(write, rows, totalSize);
          ok, newRows := SinkWrite(write, rows);
        case LockPut(lock) =>
          MergeLock(lock, rows, totalSize);
          ok, newRows := SinkLock(lock, rows);
        case DefaultPut(key, value) =>
          SinkNothing(step, Feed());
          MergeDefault(key, value, rows, totalSize);
          var row := DecodeDefault(value, if key in rows then rows[key] else EMPTY_ROW);
          newRows := rows[key := row];
          newSize := totalSize + |row.value|;
        case UnknownFamily =>
          SinkNothing(step, Feed());
          ok := false;
      }
    }

    /** One raft command: its puts become rows and lock events, and the rows are broadcast together. If it
        fails nothing is broadcast, and the lock events are those of the requests up to the failure. */
    method SinkData(index: nat, requests: seq<Request>) returns (ok: bool)
      requires Valid()
      modifies this`resolver, this`pending, gauge, Subscribers()`sent
      ensures Valid() && Subscribers() == old(Subscribers())
      ensures gauge.value - Held(Some(Feed())) == old(gauge.value - Held(Some(Feed())))
      ensures ok <==> RowsOf(requests).Some? && Subscribers() != []
      ensures Some(Feed()) == FeedStep(step, old(Feed()), Sink(DeliveredOps(NO_ROWS, requests)))
      ensures ok ==> Some(Feed()) == FeedStep(step, old(Feed()), Sink(AllOps(requests)))
      ensures forall i :: 0 <= i < |Subscribers()| ==>
        Subscribers()[i].sent == old(Subscribers()[i].sent) +
        (if ok && Receives(States(), i, true) then RowsNotice(RowsOf(requests).value, regionId, index, Subscribers()[i])
         else [])
    {
      var rows, totalSize;
      ok, rows, totalSize := SinkAll(requests);
      if !ok {
        return;
      }
      DeliveredAll(requests);
      ok := Broadcast(Message(0, regionId, index, Changed(rows)), totalSize, true);
    }

    /** The loop over the requests. */
    method SinkAll(requests: seq<Request>) returns (ok: bool, rows: map<Bytes, EventRow>, totalSize: nat)
      requires Valid()
      modifies this`resolver, this`pending, gauge
      ensures Valid() && Subscribers() == old(Subscribers())
      ensures gauge.value - Held(Some(Feed())) == old(gauge.value - Held(Some(Feed())))
      ensures (ok <==> RowsOf(requests).Some?) && (ok ==> RowsOf(requests) == Some(Rows(rows, totalSize)))
      ensures Some(Feed()) == FeedStep(step, old(Feed()), Sink(DeliveredOps(NO_ROWS, requests)))
    {
      ok, rows, totalSize := true, map[], 0;
      ghost var start := Feed();
      ghost var done: seq<LockOp> := [];
      SinkNothing(step, start);
      ProgressAtStart(requests);
      for i := 0 to |requests|
        invariant ok && Valid() && Subscribers() == old(Subscribers())
        invariant gauge.value - Held(Some(Feed())) == old(gauge.value - Held(Some(Feed())))
        invariant Some(Feed()) == FeedStep(step, start, Sink(done))
        invariant Progress(requests, i, Rows(rows, totalSize), done)
      {
        ghost var s := Rows(rows, totalSize);
        ghost var ops := Attempted(s, requests[i]);
        ProgressStep(requests, i, s, done);
        SinkMore(step, start, done, ops);
        ok, rows, totalSize := SinkRequest(requests[i], rows, totalSize);
        done := done + ops;
        if !ok {
          return;
        }
      }
      ProgressAtEnd(requests, Rows(rows, totalSize), done);
    }

    /** The first subscriber with this id gets the non-empty batches of the scan, in order; nobody else gets
        anything. */
    method OnScan(downstreamId: nat, entries: seq<ScanEntry>) returns (ghost batches: seq<Batch>)
      requires Valid()
      modifies Subscribers()`sent
      ensures IsCut(entries, batches, EVENT_MAX_SIZE)
      ensures forall i :: 0 <= i < |Subscribers()| ==>
        Subscribers()[i].sent == old(Subscribers()[i].sent) +
        (if IsFirst(Subscribers(), i, downstreamId) then BatchLog(NonEmpty(batches), regionId, Subscribers()[i]) else [])
    {
      var n := FindFirst(Subscribers(), downstreamId);
      var rows := CutIntoBatches(entries, EVENT_MAX_SIZE);
      batches := rows;
      if n < |Subscribers()| {
        SendBatches(Subscribers()[n], rows, regionId);
      }
    }
  }

  method FindFirst(ds: seq<Downstream>, id: nat) returns (n: nat)
    ensures n <= |ds| && forall i :: 0 <= i < |ds| ==> (IsFirst(ds, i, id) <==> i == n)
  {
    n := 0;
    while n < |ds| && ds[n].id != id
      invariant n <= |ds| && forall i :: 0 <= i < n ==> ds[i].id != id
    {
      n := n + 1;
    }
  }

  /** The rows after a lock put; `None` if both it and an earlier default put carry a value. */
  function LockRows(lock: LockRecord, rows: map<Bytes, EventRow>): Option<map<Bytes, EventRow>> {
    match DecodeLock(lock)
    case None => Some(rows)
    case Some(row) =>
      match NewRow(Lock(row.key, row), RowAt(rows, row.key))
      case None => None
      case Some(merged) => Some(rows[row.key := merged])
  }

  function WriteRows(write: WriteRecord, rows: map<Bytes, EventRow>): map<Bytes, EventRow> {
    match DecodeWrite(write)
    case None => rows
    case Some(row) => rows[row.key := row]
  }

  lemma MergeWrite(write: WriteRecord, rows: map<Bytes, EventRow>, totalSize: nat)
    ensures Merge(Rows(rows, totalSize), WritePut(write)) ==
            if DecodeWrite(write).Some? && DecodeWrite(write).value.key in rows then None
            else Some(Rows(WriteRows(write, rows), totalSize))
    ensures Attempted(Rows(rows, totalSize), WritePut(write)) == OpsOf(WritePut(write))
  { }

  lemma MergeLock(lock: LockRecord, rows: map<Bytes, EventRow>, totalSize: nat)
    ensures Merge(Rows(rows, totalSize), LockPut(lock)) ==
            match LockRows(lock, rows) case None => None case Some(r) => Some(Rows(r, totalSize))
    ensures Attempted(Rows(rows, totalSize), LockPut(lock)) ==
            if LockRows(lock, rows).Some? then OpsOf(LockPut(lock)) else []
  { }

  lemma MergeDefault(key: Bytes, value: Bytes, rows: map<Bytes, EventRow>, totalSize: nat)
    ensures var row := DecodeDefault(value, if key in rows then rows[key] else EMPTY_ROW);
      Merge(Rows(rows, totalSize), DefaultPut(key, value)) == Some(Rows(rows[key := row], totalSize + |row.value|))
    ensures Attempted(Rows(rows, totalSize), DefaultPut(key, value)) == []
  { }

  /** The lock events a request gives rise to even if it fails: a write's comes before its assertion. */
  function Attempted(s: Rows, r: Request): seq<LockOp> {
    if Merge(s, r).Some? || EffectOf(r).Insert? then OpsOf(r) else []
  }

  /** The lock events of a command, up to and with the request that fails. */
  function DeliveredOps(s: Rows, reqs: seq<Request>): seq<LockOp>
    decreases |reqs|
  {
    if reqs == [] then []
    else if Merge(s, reqs[0]).None? then Attempted(s, reqs[0])
    else Attempted(s, reqs[0]) + DeliveredOps(Merge(s, reqs[0]).value, reqs[1..])
  }

  /** The first `i` requests merged into `s` and delivered `done`. */
  ghost predicate Progress(reqs: seq<Request>, i: nat, s: Rows, done: seq<LockOp>) {
    && i <= |reqs|
    && RowsOf(reqs) == MergeAll(Some(s), reqs[i..])
    && DeliveredOps(NO_ROWS, reqs) == done + DeliveredOps(s, reqs[i..])
  }

  lemma ProgressAtStart(reqs: seq<Request>)
    ensures Progress(reqs, 0, NO_ROWS, [])
  {
    assert reqs[0..] == reqs && [] + DeliveredOps(NO_ROWS, reqs) == DeliveredOps(NO_ROWS, reqs);
  }

  lemma ProgressStep(reqs: seq<Request>, i: nat, s: Rows, done: seq<LockOp>)
    requires i < |reqs| && Progress(reqs, i, s, done)
    ensures var next, now := Merge(s, reqs[i]), done + Attempted(s, reqs[i]);
      if next.Some? then Progress(reqs, i + 1, next.value, now)
      else RowsOf(reqs).None? && DeliveredOps(NO_ROWS, reqs) == now
  {
    assert reqs[i..][0] == reqs[i] && reqs[i..][1..] == reqs[i + 1..];
    PanicIsFinal(reqs[i + 1..]);
    if Merge(s, reqs[i]).Some? {
      var rest := DeliveredOps(Merge(s, reqs[i]).value, reqs[i + 1..]);
      assert done + (Attempted(s, reqs[i]) + rest) == done + Attempted(s, reqs[i]) + rest;
    }
  }

  lemma ProgressAtEnd(reqs: seq<Request>, s: Rows, done: seq<LockOp>)
    requires Progress(reqs, |reqs|, s, done)
    ensures RowsOf(reqs) == Some(s) && DeliveredOps(NO_ROWS, reqs) == done
  {
    assert reqs[|reqs|..] == [] && done + [] == done;
  }

  lemma {:induction false} DeliveredFrom(s: Rows, reqs: seq<Request>)
    requires MergeAll(Some(s), reqs).Some?
    ensures DeliveredOps(s, reqs) == AllOps(reqs)
    decreases |reqs|
  {
    if reqs != [] {
      PanicIsFinal(reqs[1..]);
      DeliveredFrom(Merge(s, reqs[0]).value, reqs[1..]);
      AllOpsFront(reqs);
    }
  }

  lemma {:induction false} AllOpsFront(reqs: seq<Request>)
    requires reqs != []
    ensures AllOps(reqs) == OpsOf(reqs[0]) + AllOps(reqs[1..])
    decreases |reqs|
  {
    var n := |reqs| - 1;
    if n > 0 {
      AllOpsFront(reqs[..n]);
      assert reqs[..n][1..] == reqs[1..][..n - 1];
    } else {
      assert reqs[..0] == [] && reqs[1..] == [];
    }
  }

  /** A command that does not fail delivers every lock event. */
  lemma DeliveredAll(reqs: seq<Request>)
    requires RowsOf(reqs).Some?
    ensures DeliveredOps(NO_ROWS, reqs) == AllOps(reqs)
  {
    DeliveredFrom(NO_ROWS, reqs);
  }

  predicate IsFirst(ds: seq<Downstream>, i: nat, id: nat)
    requires i < |ds|
  {
    ds[i].id == id && forall j :: 0 <= j < i ==> ds[j].id != id
  }

  /** The events of a list of batches, as one subscriber logs them. */
  function BatchLog(batches: seq<Batch>, regionId: nat, d: Downstream): Log {
    if batches == [] then []
    else
      var (size, rows) := batches[|batches| - 1];
      BatchLog(batches[..|batches| - 1], regionId, d) + Notice(size, Message(0, regionId, 0, Entries(rows)), d)
  }

  lemma BatchLogSnoc(rows: seq<Batch>, i: nat, regionId: nat, d: Downstream)
    requires i < |rows|
    ensures BatchLog(NonEmpty(rows[..i + 1]), regionId, d) ==
            BatchLog(NonEmpty(rows[..i]), regionId, d) +
            (if rows[i].1 == [] then [] else Notice(rows[i].0, Message(0, regionId, 0, Entries(rows[i].1)), d))
  {
    assert rows[..i + 1][..i] == rows[..i];
    var before := NonEmpty(rows[..i]);
    if rows[i].1 == [] {
      assert before + [] == before;
    } else {
      assert (before + [rows[i]])[..|before|] == before;
    }
  }

  /** One event for every batch, in order, each with its size and rows. */
  lemma {:induction false} BatchesAsEvents(batches: seq<Batch>, regionId: nat, d: Downstream)
    ensures |BatchLog(batches, regionId, d)| == |batches|
    ensures forall k :: 0 <= k < |batches| ==>
      BatchLog(batches, regionId, d)[k] == (batches[k].0, Message(d.reqId, regionId, 0, Entries(batches[k].1)))
    decreases |batches|
  {
    if batches != [] {
      var n := |batches| - 1;
      BatchesAsEvents(batches[..n], regionId, d);
      assert forall k :: 0 <= k < n ==> batches[..n][k] == batches[k];
    }
  }

  /** The rows in a log. */
  function RowsIn(log: Log): seq<EventRow> {
    if log == [] then []
    else
      var m := log[|log| - 1].1;
      RowsIn(log[..|log| - 1]) + if m.payload.Entries? then m.payload.entries else []
  }

  /** A subscriber gets every row of its scan, in order, and no empty event. */
  lemma {:induction false} ScanArrives(batches: seq<Batch>, regionId: nat, d: Downstream)
    ensures RowsIn(BatchLog(NonEmpty(batches), regionId, d)) == Concat(batches)
    ensures forall e :: e in BatchLog(NonEmpty(batches), regionId, d) ==>
      e.1.payload.Entries? && e.1.payload.entries != []
    decreases |batches|
  {
    if batches != [] {
      var n := |batches| - 1;
      ScanArrives(batches[..n], regionId, d);
      BatchLogSnoc(batches, n, regionId, d);
      assert batches[..n + 1] == batches;
      var before, now := BatchLog(NonEmpty(batches[..n]), regionId, d), BatchLog(NonEmpty(batches), regionId, d);
      if batches[n].1 == [] {
        assert before + [] == before && Concat(batches[..n]) + [] == Concat(batches[..n]);
      } else {
        assert now[..|before|] == before;
      }
    }
  }

  method SendBatches(d: Downstream, rows: seq<Batch>, regionId: nat)
    modifies d`sent
    ensures d.sent == old(d.sent) + BatchLog(NonEmpty(rows), regionId, d)
  {
    for i := 0 to |rows|
      invariant d.sent == old(d.sent) + BatchLog(NonEmpty(rows[..i]), regionId, d)
    {
      BatchLogSnoc(rows, i, regionId, d);
      if rows[i].1 != [] {
        d.SinkEvent(Message(0, regionId, 0, Entries(rows[i].1)), rows[i].0);
      }
    }
    assert rows[..|rows|] == rows;
  }

  lemma DeliverOne<R>(step: ResolverStep<R>, r: R, op: LockOp)
    ensures Deliver(step, r, [op]) == step(r, op)
  {
    assert [op][..0] == [];
  }

  lemma KeyBytesOne(locks: seq<LockOp>, op: LockOp)
    ensures KeyBytes(locks + [op]) == KeyBytes(locks) + |op.key|
  {
    assert (locks + [op])[..|locks|] == locks;
  }

  lemma SinkNothing<R>(step: ResolverStep<R>, f: Feed<R>)
    ensures FeedStep(step, f, Sink([])) == Some(f)
  {
    if f.Buffering? {
      assert f.locks + [] == f.locks;
    }
  }

  lemma SinkMore<R>(step: ResolverStep<R>, f: Feed<R>, xs: seq<LockOp>, ys: seq<LockOp>)
    ensures FeedStep(step, FeedStep(step, f, Sink(xs)).value, Sink(ys)) == FeedStep(step, f, Sink(xs + ys))
  {
    if f.Ready? {
      DeliverConcat(step, f.resolver, xs, ys);
    } else {
      assert f.locks + xs + ys == f.locks + (xs + ys);
    }
  }

  /** All but the last are filtered. */
  method SendToAll(ds: seq<Downstream>, m: Message, size: nat, normalOnly: bool)
    requires Distinct(ds) && ds != []
    modifies ds`sent
    ensures forall i :: 0 <= i < |ds| ==>
      ds[i].sent == old(ds[i].sent) +
      (if i == |ds| - 1 || !normalOnly || ds[i].state.Normal? then Notice(size, m, ds[i]) else [])
  {
    for i := 0 to |ds| - 1
      invariant forall j :: i <= j < |ds| ==> ds[j].sent == old(ds[j].sent)
      invariant forall j :: 0 <= j < i ==>
        ds[j].sent == old(ds[j].sent) + (if !normalOnly || ds[j].state.Normal? then Notice(size, m, ds[j]) else [])
    {
      if normalOnly && !ds[i].state.Normal? {
        continue;
      }
      ds[i].SinkEvent(m, size);
    }
    ds[|ds| - 1].SinkEvent(m, size);
  }

  /** `retain` with the closure of `unsubscribe`. */
  method Retire(all: seq<Downstream>, id: nat, error: Option<FeedError>, regionId: nat) returns (kept: seq<Downstream>)
    requires Distinct(all)
    modifies all
    ensures kept == Others(all, id)
    ensures forall d :: d in all && d.id == id ==> d.state == Stopped && d.sent == old(d.sent) + Farewell(error, regionId, d)
    ensures forall d :: d in all && d.id != id ==> d.state == old(d.state) && d.sent == old(d.sent)
  {
    kept := [];
    for i := 0 to |all|
      invariant kept == Others(all[..i], id)
      invariant forall j :: 0 <= j < |all| && (i <= j || all[j].id != id) ==>
        all[j].state == old(all[j].state) && all[j].sent == old(all[j].sent)
      invariant forall j :: 0 <= j < i && all[j].id == id ==>
        all[j].state == Stopped && all[j].sent == old(all[j].sent) + Farewell(error, regionId, all[j])
    {
      OthersSnoc(all, i, id);
      if all[i].id == id {
        if error.Some? {
          all[i].SinkEvent(Message(0, regionId, 0, Failure(error.value)), 0);
        }
        all[i].state := Stopped;
      } else {
        kept := kept + [all[i]];
      }
    }
    assert all[..|all|] == all;
  }

  function Others(ds: seq<Downstream>, id: nat): seq<Downstream> {
    if ds == [] then []
    else Others(ds[..|ds| - 1], id) + if ds[|ds| - 1].id != id then [ds[|ds| - 1]] else []
  }

  lemma OthersSnoc(ds: seq<Downstream>, i: nat, id: nat)
    requires i < |ds|
    ensures Others(ds[..i + 1], id) == Others(ds[..i], id) + if ds[i].id != id then [ds[i]] else []
  {
    assert ds[..i + 1][..i] == ds[..i];
  }

  function OthersIn(ds: seq<Downstream>, id: nat): nat {
    if ds == [] then 0 else OthersIn(ds[..|ds| - 1], id) + if ds[|ds| - 1].id != id then 1 else 0
  }

  lemma OthersInSnoc(ds: seq<Downstream>, i: nat, id: nat)
    requires i < |ds|
    ensures OthersIn(ds[..i + 1], id) == OthersIn(ds[..i], id) + if ds[i].id != id then 1 else 0
  {
    assert ds[..i + 1][..i] == ds[..i];
  }

  lemma {:induction false} OthersAreCounted(ds: seq<Downstream>, i: nat, n: nat, id: nat)
    requires i <= n <= |ds|
    ensures |Others(ds[..n], id)| == OthersIn(ds[..n], id) && Others(ds[..i], id) <= Others(ds[..n], id)
    decreases n
  {
    if n > 0 {
      OthersAreCounted(ds, if i < n then i else n - 1, n - 1, id);
      OthersSnoc(ds, n - 1, id);
      OthersInSnoc(ds, n - 1, id);
    }
  }

  /** The subscribers with other ids stay, in their order. */
  lemma OthersStay(ds: seq<Downstream>, id: nat, i: nat)
    requires i < |ds|
    ensures |Others(ds, id)| == OthersIn(ds, id)
    ensures ds[i].id != id ==>
      OthersIn(ds[..i], id) < |Others(ds, id)| && Others(ds, id)[OthersIn(ds[..i], id)] == ds[i]
  {
    assert ds[..|ds|] == ds;
    OthersAreCounted(ds, i + 1, |ds|, id);
    OthersAreCounted(ds, i, i, id);
    OthersSnoc(ds, i, id);
  }

  lemma {:induction false} OthersDistinct(ds: seq<Downstream>, id: nat)
    requires Distinct(ds)
    ensures Distinct(Others(ds, id)) && forall d :: d in Others(ds, id) <==> d in ds && d.id != id
    decreases |ds|
  {
    if ds != [] {
      var front, last := ds[..|ds| - 1], ds[|ds| - 1];
      OthersDistinct(front, id);
      assert ds == front + [last];
      assert last !in front;
    }
  }
}
