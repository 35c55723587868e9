/** How a window's counter relates to the numbers marked taken in it: at least as large in serial runs, and
    overtaken when a transaction with an old snapshot marks numbers that were cleared meanwhile. */
module AllocatorCounts {
  import opened Common
  import opened Allocator
  import opened AllocatorRuns

  /** No window holds more taken numbers than its counter says. */
  ghost predicate AllCounted(w: WindowSize, s: Store) {
    forall k :: IsStart(w, k) ==> Counted(w, s, k)
  }

  predicate Counted(w: WindowSize, s: Store, k: int) {
    |TakenWithin(s.recent, k, w(k))| <= CountAt(s.counters, k)
  }

  // ------------------------------------------------------------- one commit

  /** A commit that moves on clears the windows before its own and finds its own one number short. */
  lemma AdvanceKeepsCounted(w: WindowSize, s: Store, p: Plan, k: int)
    requires Sizes(w) && IsStart(w, p.start) && IsStart(w, k) && AllCounted(w, s)
    requires p.base < p.start && p.tried == {p.candidate} && p.start <= p.candidate < p.start + w(p.start)
    ensures Counted(w, Apply(s, p), k)
  {
    var before, after := TakenWithin(s.recent, k, w(k)), TakenWithin(Apply(s, p).recent, k, w(k));
    assert Counted(w, s, k);
    if k < p.start {
      WindowsDisjoint(w, k, p.start);
      assert after == {};
    } else if k == p.start {
      assert after == before + {p.candidate};
      CountRises(s, p);
    } else {
      WindowsDisjoint(w, p.start, k);
      assert after == before;
    }
  }

  /** A commit into its snapshot's newest window leaves the other windows alone. */
  lemma StayKeepsOthersCounted(w: WindowSize, s: Store, p: Plan, k: int)
    requires Sizes(w) && IsStart(w, p.start) && IsStart(w, k) && k != p.start && AllCounted(w, s)
    requires p.base == p.start && forall c :: c in p.tried ==> p.start <= c < p.start + w(p.start)
    ensures Counted(w, Apply(s, p), k)
  {
    assert Counted(w, s, k);
    if k < p.start {
      WindowsDisjoint(w, k, p.start);
    } else {
      WindowsDisjoint(w, p.start, k);
    }
    assert TakenWithin(Apply(s, p).recent, k, w(k)) == TakenWithin(s.recent, k, w(k));
  }

  lemma StayCounts(w: WindowSize, s: Store, p: Plan)
    requires p.base == p.start && forall c :: c in p.tried ==> p.start <= c < p.start + w(p.start)
    ensures Counted(w, Apply(s, p), p.start) <==>
            |TakenWithin(s.recent, p.start, w(p.start))| + |p.tried - s.recent| <= CountAt(s.counters, p.start) + 2
  {
    var before, marked := TakenWithin(s.recent, p.start, w(p.start)), p.tried - s.recent;
    assert TakenWithin(Apply(s, p).recent, p.start, w(p.start)) == before + marked;
    assert before !! marked;
    CountRises(s, p);
  }

  /** The numbers a commit marks that were not marked any more fit under its two counts. */
  predicate MarksFit(w: WindowSize, s: Store, p: Plan) {
    p.start > p.base ||
    |TakenWithin(s.recent, p.start, w(p.start))| + |p.tried - s.recent| <= CountAt(s.counters, p.start) + 2
  }

  /** Exactly when a commit, planned on any earlier state, keeps every window counted. */
  lemma CommitKeepsCountsIffMarksFit(w: WindowSize, s: Store, snapshot: Store, p: Plan)
    requires Sizes(w) && Sound(w, snapshot) && Planned(snapshot, w, p) && AllCounted(w, s)
    ensures AllCounted(w, Apply(s, p)) <==> MarksFit(w, s, p)
  {
    PlanFacts(w, snapshot, p);
    StartIsNatural(w, p.base);
    if p.start > p.base {
      forall k | IsStart(w, k) ensures Counted(w, Apply(s, p), k) {
        AdvanceKeepsCounted(w, s, p, k);
      }
    } else {
      StayCounts(w, s, p);
      forall k | IsStart(w, k) && k != p.start ensures Counted(w, Apply(s, p), k) {
        StayKeepsOthersCounted(w, s, p, k);
      }
      assert IsStart(w, p.start);
    }
  }

  // ------------------------------------------------------------- serial runs

  lemma OneNewMark(s: Store, p: Plan)
    requires Newest(s.counters) <= p.start && forall c :: c in p.tried ==> p.start <= c
    requires forall c :: c in p.tried && c != p.candidate ==> Taken(s, c)
    ensures |p.tried - s.recent| <= 1
  {
    forall c | c in p.tried - s.recent ensures c in {p.candidate} {
      assert c != p.candidate ==> Taken(s, c);
    }
    SubsetSize(p.tried - s.recent, {p.candidate});
  }

  /** A commit whose window is still the newest, or a newer one, marks a single new number, however old its
      snapshot. */
  lemma TimelyMarksFit(w: WindowSize, s: Store, snapshot: Store, p: Plan)
    requires Sizes(w) && Sound(w, snapshot) && Follows(snapshot, s) && Planned(snapshot, w, p) && AllCounted(w, s)
    requires Newest(s.counters) <= p.start
    ensures MarksFit(w, s, p)
  {
    PlanFacts(w, snapshot, p);
    forall c | c in p.tried && c != p.candidate ensures Taken(s, c) {
      assert c in snapshot.recent;
    }
    OneNewMark(s, p);
    assert IsStart(w, p.start) && Counted(w, s, p.start);
  }

  /** On the very state it was planned on, too. */
  lemma FreshMarksFit(w: WindowSize, s: Store, p: Plan)
    requires Sizes(w) && Sound(w, s) && Planned(s, w, p) && AllCounted(w, s)
    ensures MarksFit(w, s, p)
  {
    PlanFacts(w, s, p);
    StartIsNatural(w, p.base);
    TimelyMarksFit(w, s, s, p);
  }

  lemma {:induction false} FreshPlansKeepCounts(w: WindowSize, s: Store, plans: seq<Plan>)
    requires Sizes(w) && Sound(w, s) && AllCounted(w, s) && PlannedAll(s, w, plans)
    ensures AllCounted(w, ApplyAll(s, plans)) && Sound(w, ApplyAll(s, plans))
    decreases |plans|
  {
    if plans != [] {
      var front, p := plans[..|plans| - 1], plans[|plans| - 1];
      FrontIsPlanned(s, w, plans);
      FreshPlansKeepCounts(w, s, front);
      var view := ApplyAll(s, front);
      FreshMarksFit(w, view, p);
      CommitKeepsCountsIffMarksFit(w, view, view, p);
      CommitKeepsSound(w, view, view, p);
    }
  }

  lemma EmptyIsCounted(w: WindowSize)
    ensures AllCounted(w, EMPTY)
  {
    forall k ensures Counted(w, EMPTY, k) {
      assert TakenWithin({}, k, w(k)) == {};
    }
  }

  lemma SerialPrefix(log: seq<Commit>, w: WindowSize, restored: bool)
    requires Sizes(w) && Run(log, w, restored) && Serial(log) && log != []
    ensures Run(log[..|log| - 1], w, restored) && Serial(log[..|log| - 1])
    ensures PlannedAll(Replay(log[..|log| - 1]), w, log[|log| - 1].plans)
  {
    CommitAt(log, w, restored, |log| - 1);
    RunPrefix(log, w, restored, |log| - 1);
  }

  /** When transactions run one after another, the counter of every window is at least the number of its
      taken entries. */
  lemma {:induction false} SerialRunsAreCounted(log: seq<Commit>, w: WindowSize, restored: bool)
    requires Sizes(w) && Run(log, w, restored) && Serial(log)
    ensures AllCounted(w, Replay(log)) && Sound(w, Replay(log))
    decreases |log|
  {
    if log == [] {
      EmptyIsCounted(w);
      EmptyIsReached(w);
    } else {
      SerialPrefix(log, w, restored);
      SerialRunsAreCounted(log[..|log| - 1], w, restored);
      FreshPlansKeepCounts(w, Replay(log[..|log| - 1]), log[|log| - 1].plans);
    }
  }

  // ------------------------------------------------------------- concurrent runs

  /** Every allocation of a transaction is applied while its window is the newest. */
  ghost predicate Timely(s: Store, plans: seq<Plan>) {
    forall i :: 0 <= i < |plans| ==> Newest(ApplyAll(s, plans[..i]).counters) <= plans[i].start
  }

  lemma TimelyFront(s: Store, plans: seq<Plan>)
    requires Timely(s, plans) && plans != []
    ensures var n := |plans| - 1; Timely(s, plans[..n]) && Newest(ApplyAll(s, plans[..n]).counters) <= plans[n].start
  {
    var front := plans[..|plans| - 1];
    forall i | 0 <= i < |front| ensures Newest(ApplyAll(s, front[..i]).counters) <= front[i].start {
      assert front[..i] == plans[..i];
    }
  }

  lemma {:induction false} TimelyPlansKeepCounts(w: WindowSize, s: Store, snapshot: Store, plans: seq<Plan>)
    requires Sizes(w) && Sound(w, s) && Sound(w, snapshot) && Follows(snapshot, s) && AllCounted(w, s)
    requires PlannedAll(snapshot, w, plans) && Timely(s, plans)
    ensures AllCounted(w, ApplyAll(s, plans))
    decreases |plans|
  {
    if plans != [] {
      var front, p := plans[..|plans| - 1], plans[|plans| - 1];
      FrontIsPlanned(snapshot, w, plans);
      TimelyFront(s, plans);
      TimelyPlansKeepCounts(w, s, snapshot, front);
      PlansKeepSound(w, s, snapshot, front);
      TimelyMarksFit(w, ApplyAll(s, front), ApplyAll(snapshot, front), p);
      CommitKeepsCountsIffMarksFit(w, ApplyAll(s, front), ApplyAll(snapshot, front), p);
    }
  }

  ghost predicate TimelyRun(log: seq<Commit>) {
    forall i :: 0 <= i < |log| ==> Timely(Replay(log[..i]), log[i].plans)
  }

  lemma TimelyRunFront(log: seq<Commit>)
    requires TimelyRun(log) && log != []
    ensures var n := |log| - 1; TimelyRun(log[..n]) && Timely(Replay(log[..n]), log[n].plans)
  {
    var front := log[..|log| - 1];
    forall i | 0 <= i < |front| ensures Timely(Replay(front[..i]), front[i].plans) {
      assert front[..i] == log[..i];
    }
  }

  /** Concurrent runs keep every window counted as long as transactions commit while their window is still
      the newest. */
  lemma {:induction false} TimelyRunsAreCounted(log: seq<Commit>, w: WindowSize, restored: bool)
    requires Sizes(w) && Run(log, w, restored) && TimelyRun(log)
    ensures AllCounted(w, Replay(log))
    decreases |log|
  {
    if log == [] {
      EmptyIsCounted(w);
    } else {
      var n := |log| - 1;
      var front, last := log[..n], log[n];
      TimelyRunFront(log);
      RunPrefix(log, w, restored, n);
      CommitAt(log, w, restored, n);
      TimelyRunsAreCounted(front, w, restored);
      RunIsSound(front, w, restored);
      SnapshotIsSound(log, w, restored, n);
      TimelyPlansKeepCounts(w, Replay(front), Replay(log[..last.version]), last.plans);
    }
  }

  lemma SnapshotIsSound(log: seq<Commit>, w: WindowSize, restored: bool, i: nat)
    requires Sizes(w) && Run(log, w, restored) && i < |log|
    ensures log[i].version <= i && Sound(w, Replay(log[..log[i].version]))
    ensures Follows(Replay(log[..log[i].version]), Replay(log[..i]))
  {
    var v := log[i].version;
    CommitAt(log, w, restored, i);
    RunPrefix(log, w, restored, v);
    RunIsSound(log[..v], w, restored);
    RunPrefix(log, w, restored, i);
    RunIsSound(log[..i], w, restored);
    assert log[..i][..v] == log[..v];
  }

  // ------------------------------------------------------------- a stale commit

  /** A store with one window in use. */
  function One(k: int, count: nat, recent: set<int>): Store {
    Store(map[k := count], recent)
  }

  lemma NewestOfOne(k: int, count: nat)
    ensures Newest(map[k := count]) == k && CountAt(map[k := count], k) == count
  {
    NewestIs(map[k := count], k);
  }

  /** An allocation that stays in the only window. */
  lemma Stays(w: WindowSize, k: int, count: nat, recent: set<int>, draws: seq<nat>, tried: set<int>, c: int)
    requires Sizes(w) && (count + 1) * 2 < w(k) && Pick(recent, k, w(k), draws) == Some((tried, c))
    ensures var s, p := One(k, count, recent), Plan(k, k, tried, c);
      MakePlan(s, w, draws) == Some(p) && Apply(s, p) == One(k, count + 2, recent + tried)
  {
    NewestOfOne(k, count);
    assert Apply(One(k, count, recent), Plan(k, k, tried, c)).counters == map[k := count + 2];
  }

  /** An allocation that moves on to the next window. */
  lemma MovesOn(w: WindowSize, k: int, count: nat, recent: set<int>, draws: seq<nat>, c: int)
    requires Sizes(w) && (count + 1) * 2 >= w(k) && (forall x :: x in recent ==> x < c)
    requires draws == [0] && c == k + w(k)
    ensures var s, p := One(k, count, recent), Plan(k, c, {c}, c);
      MakePlan(s, w, draws) == Some(p) && Apply(s, p) == One(c, 2, {c})
  {
    var s, p := One(k, count, recent), Plan(k, c, {c}, c);
    NewestOfOne(k, count);
    assert w(c) >= 3 && Draw(c, w(c), 0) == c;
    assert Visible(s, c) == {};
    assert Pick({}, c, w(c), draws) == Some(({c}, c));
    assert AddOne(s.counters, k) == map[k := count + 1];
    assert CountersFrom(AddOne(s.counters, k), c) == map[];
    assert Apply(s, p).counters == map[c := 2];
    assert Apply(s, p).recent == {c};
  }

  lemma DrawFree(taken: set<int>, k: int, window: int, d: nat)
    requires 0 <= d < window && k + d !in taken
    ensures Pick(taken, k, window, [d]) == Some(({k + d}, k + d))
  {
    assert Draw(k, window, d) == k + d;
  }

  lemma DrawAgain(taken: set<int>, k: int, window: int, d: nat, rest: seq<nat>, tried: set<int>, c: int)
    requires 0 <= d < window && k + d in taken && Pick(taken, k, window, rest) == Some((tried, c))
    ensures Pick(taken, k, window, [d] + rest) == Some(({k + d} + tried, c))
  {
    assert Draw(k, window, d) == k + d;
    assert ([d] + rest)[1..] == rest;
  }

  /** One more transaction, with a single allocation, that starts after the previous commit. */
  lemma Next(log: seq<Commit>, w: WindowSize, draws: seq<nat>, p: Plan) returns (more: seq<Commit>)
    requires Sizes(w) && Run(log, w, true) && MakePlan(Replay(log), w, draws) == Some(p)
    ensures more == log + [Commit(|log|, [p])] && Run(more, w, true) && Replay(more) == Apply(Replay(log), p)
    ensures WriteConflicts(more[|log|].plans, true) == p.tried
  {
    var c := Commit(|log|, [p]);
    OnePlan(Replay(log), w, draws, p);
    assert log[..|log|] == log;
    RunSnoc(log, c, w, true);
    ReplaySnoc(log, c);
    more := log + [c];
  }

  lemma TwoCommits(w: WindowSize) returns (two: seq<Commit>)
    requires Sizes(w) && w(0) == 11
    ensures Run(two, w, true) && |two| == 2 && Replay(two) == One(0, 4, {0, 1})
  {
    var none: seq<Commit> := [];
    EmptyRun(w, true);
    var a := FirstPlan(w);
    var one := Next(none, w, [0], a);
    assert Apply(EMPTY, a) == One(0, 2, {0});
    DrawFree({0}, 0, 11, 1);
    Stays(w, 0, 2, {0}, [1], {1}, 1);
    two := Next(one, w, [1], Plan(0, 0, {1}, 1));
    assert {0} + {1} == {0, 1};
  }

  lemma ThirdNumber(w: WindowSize, two: seq<Commit>) returns (three: seq<Commit>, taken: set<int>)
    requires Sizes(w) && w(0) == 11 && Run(two, w, true) && |two| == 2 && Replay(two) == One(0, 4, {0, 1})
    ensures Run(three, w, true) && |three| == 3 && three[..2] == two && Replay(three) == One(0, 6, taken)
    ensures forall x :: x in taken ==> x < 11
    ensures WriteConflicts(three[2].plans, true) == {3}
  {
    DrawFree({0, 1}, 0, 11, 3);
    Stays(w, 0, 4, {0, 1}, [3], {3}, 3);
    three := Next(two, w, [3], Plan(0, 0, {3}, 3));
    taken := {0, 1} + {3};
  }

  lemma LeaveWindow(w: WindowSize, log: seq<Commit>, k: int, count: nat, taken: set<int>, c: int)
    returns (more: seq<Commit>)
    requires Sizes(w) && Run(log, w, true) && Replay(log) == One(k, count, taken)
    requires (count + 1) * 2 >= w(k) && c == k + w(k) && forall x :: x in taken ==> x < c
    ensures |more| == |log| + 1 && more[..|log|] == log && Run(more, w, true) && Replay(more) == One(c, 2, {c})
    ensures WriteConflicts(more[|log|].plans, true) == {c}
  {
    var draws: seq<nat> := [0];
    MovesOn(w, k, count, taken, draws, c);
    more := Next(log, w, draws, Plan(k, c, {c}, c));
  }

  /** Two numbers of the first window are taken, then a third, then the window is left. */
  lemma FourCommits(w: WindowSize) returns (two: seq<Commit>, four: seq<Commit>)
    requires Sizes(w) && w(0) == 11
    ensures Run(four, w, true) && |four| == 4 && four[..2] == two
    ensures Replay(two) == One(0, 4, {0, 1}) && Replay(four) == One(11, 2, {11})
    ensures WriteConflicts(four[2].plans, true) == {3} && WriteConflicts(four[3].plans, true) == {11}
  {
    two := TwoCommits(w);
    var three, taken := ThirdNumber(w, two);
    four := LeaveWindow(w, three, 0, 6, taken, 11);
    LastTwo(two, three, four);
  }

  lemma LastTwo(two: seq<Commit>, three: seq<Commit>, four: seq<Commit>)
    requires |two| == 2 && |three| == 3 && |four| == 4 && three[..2] == two && four[..3] == three
    ensures four[..2] == two && four[2] == three[2]
  { }

  lemma StalePlan(w: WindowSize) returns (draws: seq<nat>, p: Plan)
    requires Sizes(w) && w(0) == 11
    ensures MakePlan(One(0, 4, {0, 1}), w, draws) == Some(p) && p == Plan(0, 0, {0, 1, 2}, 2)
  {
    var taken := {0, 1};
    DrawFree(taken, 0, 11, 2);
    DrawAgain(taken, 0, 11, 1, [2], {2}, 2);
    DrawAgain(taken, 0, 11, 0, [1] + [2], {1} + {2}, 2);
    draws, p := [0] + ([1] + [2]), Plan(0, 0, {0, 1, 2}, 2);
    assert {0} + ({1} + {2}) == {0, 1, 2};
    Stays(w, 0, 4, taken, draws, {0, 1, 2}, 2);
  }

  lemma StaleCommitOverfills(w: WindowSize)
    requires w(0) == 11
    ensures var after := Apply(One(11, 2, {11}), Plan(0, 0, {0, 1, 2}, 2));
      CountAt(after.counters, 0) == 2 && TakenWithin(after.recent, 0, 11) == {0, 1, 2} && !Counted(w, after, 0)
  {
    var after := Apply(One(11, 2, {11}), Plan(0, 0, {0, 1, 2}, 2));
    assert TakenWithin(after.recent, 0, 11) == {0, 1, 2};
    assert |{0, 1, 2}| == 3;
  }

  lemma Disjoint(four: seq<Commit>)
    requires |four| == 4
    requires WriteConflicts(four[2].plans, true) == {3} && WriteConflicts(four[3].plans, true) == {11}
    ensures forall j :: 2 <= j < |four| ==> WriteConflicts(four[j].plans, true) !! {0, 1, 2}
  {
    forall j | 2 <= j < |four| ensures WriteConflicts(four[j].plans, true) !! {0, 1, 2} {
      assert j == 2 || j == 3;
    }
  }

  /** Even with the write conflicts in place the counter of an older window can fall behind: a transaction
      that saw 0 and 1 taken marks them again after they were cleared, and counts only twice. */
  lemma StaleRun(w: WindowSize) returns (log: seq<Commit>)
    requires Sizes(w) && w(0) == 11
    ensures Run(log, w, true) && !AllCounted(w, Replay(log))
  {
    var two, four := FourCommits(w);
    var draws, p := StalePlan(w);
    OnePlan(Replay(two), w, draws, p);
    var stale := Commit(2, [p]);
    Disjoint(four);
    RunSnoc(four, stale, w, true);
    ReplaySnoc(four, stale);
    ApplyOne(Replay(four), p);
    log := four + [stale];
    StaleCommitOverfills(w);
    assert StartAt(w, 0) == 0;
    assert IsStart(w, 0) && !Counted(w, Replay(log), 0);
  }

  lemma ApplyOne(s: Store, p: Plan)
    ensures ApplyAll(s, [p]) == Apply(s, p)
  {
    assert [p][..0] == [];
  }
}
