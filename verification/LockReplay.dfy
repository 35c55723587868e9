/** Lock events buffered until a region is ready and then replayed into its resolver, and the gauge that
    counts the bytes held in buffers. */
module LockReplay {
  import opened Common
  import opened ChangeEvents
  import opened SinkRows

  datatype LockOp =
    | Track(key: Bytes, startTs: TimeStamp)
    | Untrack(key: Bytes, startTs: TimeStamp, commitTs: Option<TimeStamp>)

  /** A resolver is known only by how it reacts to lock events. */
  type ResolverStep<!R> = (R, LockOp) -> R

  /** The lock event a request gives rise to, if any. A commit timestamp of 0 stands for none. */
  function OpsOf(r: Request): seq<LockOp> {
    match EffectOf(r)
    case Insert(_, row) => [Untrack(row.key, row.startTs, if row.commitTs == 0 then None else Some(row.commitTs))]
    case Lock(_, row) => [Track(row.key, row.startTs)]
    case _ => []
  }

  function AllOps(reqs: seq<Request>): seq<LockOp> {
    if reqs == [] then [] else AllOps(reqs[..|reqs| - 1]) + OpsOf(reqs[|reqs| - 1])
  }

  function Deliver<R>(step: ResolverStep<R>, r: R, ops: seq<LockOp>): R {
    if ops == [] then r else step(Deliver(step, r, ops[..|ops| - 1]), ops[|ops| - 1])
  }

  function KeyBytes(ops: seq<LockOp>): nat {
    if ops == [] then 0 else KeyBytes(ops[..|ops| - 1]) + |ops[|ops| - 1].key|
  }

  lemma {:induction false} DeliverConcat<R>(step: ResolverStep<R>, r: R, xs: seq<LockOp>, ys: seq<LockOp>)
    ensures Deliver(step, r, xs + ys) == Deliver(step, Deliver(step, r, xs), ys)
    decreases |ys|
  {
    if ys == [] {
      assert xs + ys == xs;
    } else {
      assert (xs + ys)[..|xs + ys| - 1] == xs + ys[..|ys| - 1];
      DeliverConcat(step, r, xs, ys[..|ys| - 1]);
    }
  }

  lemma {:induction false} KeyBytesConcat(xs: seq<LockOp>, ys: seq<LockOp>)
    ensures KeyBytes(xs + ys) == KeyBytes(xs) + KeyBytes(ys)
    decreases |ys|
  {
    if ys == [] {
      assert xs + ys == xs;
    } else {
      assert (xs + ys)[..|xs + ys| - 1] == xs + ys[..|ys| - 1];
      KeyBytesConcat(xs, ys[..|ys| - 1]);
    }
  }

  // ------------------------------------------------------------- one feed

  /** The part of a sentinel that handles locks: before its region is ready it buffers. */
  datatype Feed<R> = Buffering(locks: seq<LockOp>) | Ready(resolver: R)

  datatype Call<R> = Sink(ops: seq<LockOp>) | Install(resolver: R)

  /** `None`: a second installation trips the assertion. */
  function FeedStep<R>(step: ResolverStep<R>, f: Feed<R>, c: Call<R>): Option<Feed<R>> {
    match (f, c)
    case (Buffering(locks), Sink(ops)) => Some(Buffering(locks + ops))
    case (Buffering(locks), Install(r)) => Some(Ready(Deliver(step, r, locks)))
    case (Ready(r), Sink(ops)) => Some(Ready(Deliver(step, r, ops)))
    case (Ready(_), Install(_)) => None
  }

  function FeedRun<R>(step: ResolverStep<R>, f: Feed<R>, calls: seq<Call<R>>): Option<Feed<R>>
    decreases |calls|
  {
    if calls == [] then Some(f)
    else match FeedStep(step, f, calls[0])
         case None => None
         case Some(g) => FeedRun(step, g, calls[1..])
  }

  function OpsIn<R>(calls: seq<Call<R>>): seq<LockOp>
    decreases |calls|
  {
    if calls == [] then [] else (if calls[0].Sink? then calls[0].ops else []) + OpsIn(calls[1..])
  }

  lemma {:induction false} BufferedOps<R>(step: ResolverStep<R>, locks: seq<LockOp>, calls: seq<Call<R>>)
    requires forall i :: 0 <= i < |calls| ==> calls[i].Sink?
    ensures FeedRun(step, Buffering(locks), calls) == Some(Buffering(locks + OpsIn(calls)))
    decreases |calls|
  {
    if calls == [] {
      assert locks + [] == locks;
    } else {
      BufferedOps(step, locks + calls[0].ops, calls[1..]);
      assert locks + calls[0].ops + OpsIn(calls[1..]) == locks + OpsIn(calls);
    }
  }

  lemma {:induction false} DirectOps<R>(step: ResolverStep<R>, r: R, calls: seq<Call<R>>)
    requires forall i :: 0 <= i < |calls| ==> calls[i].Sink?
    ensures FeedRun(step, Ready(r), calls) == Some(Ready(Deliver(step, r, OpsIn(calls))))
    decreases |calls|
  {
    if calls != [] {
      DirectOps(step, Deliver(step, r, calls[0].ops), calls[1..]);
      DeliverConcat(step, r, calls[0].ops, OpsIn(calls[1..]));
    }
  }

  lemma {:induction false} RunConcat<R>(step: ResolverStep<R>, f: Feed<R>, xs: seq<Call<R>>, g: Feed<R>, ys: seq<Call<R>>)
    requires FeedRun(step, f, xs) == Some(g)
    ensures FeedRun(step, f, xs + ys) == FeedRun(step, g, ys)
    decreases |xs|
  {
    if xs == [] {
      assert xs + ys == ys;
    } else {
      assert (xs + ys)[1..] == xs[1..] + ys;
      RunConcat(step, FeedStep(step, f, xs[0]).value, xs[1..], g, ys);
    }
  }

  /** Buffer and replay refines direct delivery: wherever the installation falls among the calls, the
      resolver ends as if it had been there from the start and been fed every event at once. */
  lemma ReplayIsDirectDelivery<R>(step: ResolverStep<R>, before: seq<Call<R>>, r: R, after: seq<Call<R>>)
    requires forall i :: 0 <= i < |before| ==> before[i].Sink?
    requires forall i :: 0 <= i < |after| ==> after[i].Sink?
    ensures FeedRun(step, Buffering([]), before + [Install(r)] + after) == FeedRun(step, Ready(r), before + after)
    ensures FeedRun(step, Ready(r), before + after) == Some(Ready(Deliver(step, r, OpsIn(before) + OpsIn(after))))
  {
    BufferedOps(step, [], before);
    assert [] + OpsIn(before) == OpsIn(before);
    assert before + [Install(r)] + after == before + ([Install(r)] + after);
    RunConcat(step, Buffering([]), before, Buffering(OpsIn(before)), [Install(r)] + after);
    assert ([Install(r)] + after)[1..] == after;
    DirectOps(step, Deliver(step, r, OpsIn(before)), after);
    DirectOps(step, r, before);
    RunConcat(step, Ready(r), before, Ready(Deliver(step, r, OpsIn(before))), after);
    DeliverConcat(step, r, OpsIn(before), OpsIn(after));
  }

  // ------------------------------------------------------------- the gauge over many feeds

  /** All sentinels ever created; `None` marks a dropped one. */
  datatype World<R> = World(gauge: int, feeds: seq<Option<Feed<R>>>)

  datatype Event<R> = Create | Act(feed: nat, call: Call<R>) | DropFeed(feed: nat)

  function Held<R>(f: Option<Feed<R>>): nat {
    if f.Some? && f.value.Buffering? then KeyBytes(f.value.locks) else 0
  }

  function HeldInAll<R>(feeds: seq<Option<Feed<R>>>): nat {
    if feeds == [] then 0 else HeldInAll(feeds[..|feeds| - 1]) + Held(feeds[|feeds| - 1])
  }

  ghost predicate Possible<R>(step: ResolverStep<R>, w: World<R>, e: Event<R>) {
    match e
    case Create => true
    case Act(i, c) => i < |w.feeds| && w.feeds[i].Some? && FeedStep(step, w.feeds[i].value, c).Some?
    case DropFeed(i) => i < |w.feeds| && w.feeds[i].Some?
  }

  /** Buffered key bytes are added as they arrive; a buffer's whole count is taken back when it is dropped,
      on installation or with its sentinel. */
  function WorldStep<R>(step: ResolverStep<R>, w: World<R>, e: Event<R>): World<R>
    requires Possible(step, w, e)
  {
    match e
    case Create => w.(feeds := w.feeds + [Some(Buffering([]))])
    case Act(i, c) =>
      var f := w.feeds[i].value;
      World(w.gauge + (if f.Ready? then 0 else if c.Sink? then KeyBytes(c.ops) else -(KeyBytes(f.locks) as int)),
            w.feeds[i := FeedStep(step, f, c)])
    case DropFeed(i) => World(w.gauge - Held(w.feeds[i]), w.feeds[i := None])
  }

  lemma {:induction false} HeldAfterUpdate<R>(feeds: seq<Option<Feed<R>>>, i: nat, f: Option<Feed<R>>)
    requires i < |feeds|
    ensures HeldInAll(feeds[i := f]) == HeldInAll(feeds) - Held(feeds[i]) + Held(f)
    decreases |feeds|
  {
    var n := |feeds| - 1;
    if i < n {
      HeldAfterUpdate(feeds[..n], i, f);
      assert feeds[i := f][..n] == feeds[..n][i := f];
    } else {
      assert feeds[i := f][..n] == feeds[..n];
    }
  }

  lemma GaugeStep<R>(step: ResolverStep<R>, w: World<R>, e: Event<R>)
    requires Possible(step, w, e) && w.gauge == HeldInAll(w.feeds)
    ensures WorldStep(step, w, e).gauge == HeldInAll(WorldStep(step, w, e).feeds)
  {
    match e
    case Create =>
      assert (w.feeds + [Some(Buffering([]))])[..|w.feeds|] == w.feeds;
    case Act(i, c) =>
      HeldAfterUpdate(w.feeds, i, FeedStep(step, w.feeds[i].value, c));
      if w.feeds[i].value.Buffering? && c.Sink? {
        KeyBytesConcat(w.feeds[i].value.locks, c.ops);
      }
    case DropFeed(i) =>
      HeldAfterUpdate(w.feeds, i, None);
  }

  ghost predicate Reaches<R>(step: ResolverStep<R>, w: World<R>, events: seq<Event<R>>, end: World<R>)
    decreases |events|
  {
    if events == [] then w == end
    else Possible(step, w, events[0]) && Reaches(step, WorldStep(step, w, events[0]), events[1..], end)
  }

  /** At every point of every run the gauge equals the key bytes held in buffers not yet dropped. */
  lemma {:induction false} GaugeCountsHeldBytes<R>(step: ResolverStep<R>, w: World<R>, events: seq<Event<R>>, end: World<R>)
    requires w.gauge == HeldInAll(w.feeds) && Reaches(step, w, events, end)
    ensures end.gauge == HeldInAll(end.feeds)
    decreases |events|
  {
    if events != [] {
      GaugeStep(step, w, events[0]);
      GaugeCountsHeldBytes(step, WorldStep(step, w, events[0]), events[1..], end);
    }
  }

  /** What happens to one feed in a run: its own calls, until it is dropped. */
  function CallsOf<R>(events: seq<Event<R>>, i: nat): seq<Call<R>>
    decreases |events|
  {
    if events == [] then []
    else (if events[0].Act? && events[0].feed == i then [events[0].call] else []) + CallsOf(events[1..], i)
  }

  predicate Drops<R(==)>(events: seq<Event<R>>, i: nat) {
    exists k :: 0 <= k < |events| && events[k].DropFeed? && events[k].feed == i
  }

  /** In a run of many feeds each one ends as its own calls make it, whatever happens to the others; it is gone if
      and only if it was dropped. */
  lemma {:induction false} FeedsAreIndependent<R>(step: ResolverStep<R>, w: World<R>, events: seq<Event<R>>,
                                                  end: World<R>, i: nat)
    requires Reaches(step, w, events, end) && i < |w.feeds| && w.feeds[i].Some?
    ensures i < |end.feeds| && (end.feeds[i].None? <==> Drops(events, i))
    ensures end.feeds[i].Some? ==> end.feeds[i] == FeedRun(step, w.feeds[i].value, CallsOf(events, i))
    decreases |events|
  {
    if events != [] {
      var e, next := events[0], WorldStep(step, w, events[0]);
      assert events == [e] + events[1..];
      if e.DropFeed? && e.feed == i {
        GoneForGood(step, next, events[1..], end, i);
      } else {
        FeedsAreIndependent(step, next, events[1..], end, i);
        var calls := CallsOf(events, i);
        assert e.Act? && e.feed == i ==> calls[0] == e.call && calls[1..] == CallsOf(events[1..], i);
        assert !(e.Act? && e.feed == i) ==> calls == CallsOf(events[1..], i);
      }
    }
  }

  lemma {:induction false} GoneForGood<R>(step: ResolverStep<R>, w: World<R>, events: seq<Event<R>>, end: World<R>,
                                          i: nat)
    requires Reaches(step, w, events, end) && i < |w.feeds| && w.feeds[i].None?
    ensures i < |end.feeds| && end.feeds[i].None?
    decreases |events|
  {
    if events != [] {
      GoneForGood(step, WorldStep(step, w, events[0]), events[1..], end, i);
    }
  }

  /** A feed can be readied once: a run of calls fails if and only if it installs a second resolver. */
  function Installs<R>(calls: seq<Call<R>>): nat
    decreases |calls|
  {
    if calls == [] then 0 else (if calls[0].Install? then 1 else 0) + Installs(calls[1..])
  }

  lemma {:induction false} OneInstallation<R>(step: ResolverStep<R>, f: Feed<R>, calls: seq<Call<R>>)
    ensures FeedRun(step, f, calls).Some? <==> Installs(calls) + (if f.Ready? then 1 else 0) <= 1
    decreases |calls|
  {
    if calls != [] && FeedStep(step, f, calls[0]).Some? {
      OneInstallation(step, FeedStep(step, f, calls[0]).value, calls[1..]);
    }
  }
}
