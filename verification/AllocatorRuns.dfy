/** What every run of concurrent allocations keeps, and when the numbers returned are unique. */
module AllocatorRuns {
  import opened Common
  import opened Allocator

  // ------------------------------------------------------------- windows

  ghost function StartAt(w: WindowSize, k: nat): int {
    if k == 0 then 0 else var s := StartAt(w, k - 1); s + w(s)
  }

  /** The starts reachable from 0 by stepping over whole windows. */
  ghost predicate IsStart(w: WindowSize, s: int) {
    exists k: nat :: StartAt(w, k) == s
  }

  lemma {:induction false} StartsIncrease(w: WindowSize, i: nat, j: nat)
    requires Sizes(w) && i < j
    ensures 0 <= StartAt(w, i) && StartAt(w, i) + w(StartAt(w, i)) <= StartAt(w, j)
    decreases j
  {
    if i + 1 < j {
      StartsIncrease(w, i, j - 1);
      assert w(StartAt(w, j - 1)) >= 3;
    } else if i > 0 {
      StartsIncrease(w, i - 1, i);
      assert w(StartAt(w, i - 1)) >= 3;
    }
  }

  /** Two windows either coincide or do not overlap. */
  lemma WindowsDisjoint(w: WindowSize, s: int, t: int)
    requires Sizes(w) && IsStart(w, s) && IsStart(w, t) && s < t
    ensures 0 <= s && s + w(s) <= t
  {
    var i: nat :| StartAt(w, i) == s;
    var j: nat :| StartAt(w, j) == t;
    if i < j {
      StartsIncrease(w, i, j);
    } else if j < i {
      assert w(t) >= 3;
      StartsIncrease(w, j, i);
      assert false;
    }
  }

  lemma StartIsNatural(w: WindowSize, s: int)
    requires Sizes(w) && IsStart(w, s)
    ensures 0 <= s && IsStart(w, s + w(s))
  {
    var i: nat :| StartAt(w, i) == s;
    StartsIncrease(w, i, i + 1);
    assert StartAt(w, i + 1) == s + w(s);
  }

  // ------------------------------------------------------------- the candidate search

  /** The search ends at the first draw that is free; every earlier draw hit a taken number, and it
      finds none exactly when all draws are taken. */
  lemma {:induction false} PickFacts(taken: set<int>, start: int, window: int, draws: seq<nat>)
    requires window > 0
    ensures var r := Pick(taken, start, window, draws);
      match r
      case None => forall d :: d in draws ==> Draw(start, window, d) in taken
      case Some(p) =>
        && p.1 !in taken && p.1 in p.0 && p.0 - {p.1} <= taken
        && forall c :: c in p.0 ==> start <= c < start + window
  {
    if draws != [] {
      PickFacts(taken, start, window, draws[1..]);
      forall d | d in draws ensures d == draws[0] || d in draws[1..] { }
    }
  }

  // ------------------------------------------------------------- the invariant

  ghost predicate Taken(s: Store, number: int) {
    number < Newest(s.counters) || number in s.recent
  }

  ghost predicate Sound(w: WindowSize, s: Store) {
    var n := Newest(s.counters);
    && IsStart(w, n)
    && (forall x :: x in s.recent ==> x < n + w(n))
    && |RecentFrom(s.recent, n)| <= CountAt(s.counters, n)
  }

  /** `later` forgets nothing that `earlier` recorded. */
  ghost predicate Follows(earlier: Store, later: Store) {
    && Newest(earlier.counters) <= Newest(later.counters)
    && forall x :: x in earlier.recent ==> Taken(later, x)
  }

  lemma PlanFacts(w: WindowSize, s: Store, p: Plan)
    requires Sizes(w) && Sound(w, s) && Planned(s, w, p)
    ensures p.base == Newest(s.counters) && p.start == ChooseStart(s, w)
    ensures p.base >= 0 && IsStart(w, p.start)
    ensures forall c :: c in p.tried ==> p.start <= c < p.start + w(p.start)
    ensures p.candidate in p.tried && !Taken(s, p.candidate)
    ensures p.tried - {p.candidate} <= s.recent
    ensures p.start > p.base ==> p.tried == {p.candidate}
  {
    var draws :| MakePlan(s, w, draws) == Some(p);
    StartIsNatural(w, Newest(s.counters));
    PickFacts(Visible(s, p.start), p.start, w(p.start), draws);
    if p.start > p.base {
      assert p.start == p.base + w(p.base);
      assert Visible(s, p.start) == {};
    }
  }

  lemma NewestIs(counters: map<int, nat>, k: int)
    requires IsLast(counters.Keys, k)
    ensures Newest(counters) == k
  { }

  lemma NewestAfter(w: WindowSize, s: Store, p: Plan)
    requires p.base >= 0 && p.start >= p.base
    ensures Newest(Apply(s, p).counters) ==
            if p.start > Newest(s.counters) || s.counters.Keys == {} then p.start else Newest(s.counters)
  {
    var k := if p.start > Newest(s.counters) || s.counters.Keys == {} then p.start else Newest(s.counters);
    NewestIs(Apply(s, p).counters, k);
  }

  /** Committing into a window older than the newest one leaves the newest window alone. */
  lemma CommitInOldWindow(w: WindowSize, s: Store, p: Plan)
    requires Sizes(w) && Sound(w, s) && 0 <= p.base <= p.start < Newest(s.counters)
    requires IsStart(w, p.start) && forall c :: c in p.tried ==> p.start <= c < p.start + w(p.start)
    ensures Sound(w, Apply(s, p)) && Newest(Apply(s, p).counters) == Newest(s.counters)
  {
    var n, after := Newest(s.counters), Apply(s, p);
    NewestAfter(w, s, p);
    WindowsDisjoint(w, p.start, n);
    assert RecentFrom(after.recent, n) == RecentFrom(s.recent, n);
    assert CountAt(after.counters, n) == CountAt(s.counters, n);
  }

  /** Committing into the newest window adds one number and at least one count. */
  lemma CommitInNewestWindow(w: WindowSize, s: Store, p: Plan)
    requires Sizes(w) && Sound(w, s) && 0 <= p.base <= p.start == Newest(s.counters)
    requires forall c :: c in p.tried ==> p.start <= c < p.start + w(p.start)
    requires forall c :: c in p.tried && c != p.candidate ==> Taken(s, c)
    ensures Sound(w, Apply(s, p)) && Newest(Apply(s, p).counters) == Newest(s.counters)
  {
    var n, after := Newest(s.counters), Apply(s, p);
    NewestAfter(w, s, p);
    OneMoreTaken(s, p, n);
    CountRises(s, p);
    assert forall x :: x in after.recent ==> x < n + w(n);
  }

  lemma OneMoreTaken(s: Store, p: Plan, n: int)
    requires p.start == n == Newest(s.counters)
    requires forall c :: c in p.tried && c != p.candidate ==> Taken(s, c)
    requires forall c :: c in p.tried ==> n <= c
    ensures |RecentFrom(Apply(s, p).recent, n)| <= |RecentFrom(s.recent, n)| + 1
  {
    var known := RecentFrom(s.recent, n);
    assert RecentFrom(Apply(s, p).recent, n) <= known + {p.candidate};
    SubsetSize(RecentFrom(Apply(s, p).recent, n), known + {p.candidate});
  }

  lemma CountRises(s: Store, p: Plan)
    requires p.base <= p.start
    ensures CountAt(Apply(s, p).counters, p.start) == CountAt(s.counters, p.start) + 2
  { }

  /** The first commit into the next window finds it empty. */
  lemma CommitInNextWindow(w: WindowSize, s: Store, p: Plan)
    requires Sizes(w) && Sound(w, s) && 0 <= p.base == Newest(s.counters) && p.start == p.base + w(p.base)
    requires IsStart(w, p.start) && p.tried == {p.candidate}
    requires p.start <= p.candidate < p.start + w(p.start)
    ensures Sound(w, Apply(s, p)) && Newest(Apply(s, p).counters) == p.start
  {
    var after := Apply(s, p);
    NewestAfter(w, s, p);
    assert RecentFrom(after.recent, p.start) == {p.candidate};
    assert CountAt(after.counters, p.start) >= 1;
  }

  lemma CommitForgetsNothing(s: Store, p: Plan)
    requires p.base <= p.start <= Newest(Apply(s, p).counters) && p.candidate in p.tried
    requires Newest(s.counters) <= Newest(Apply(s, p).counters)
    ensures Follows(s, Apply(s, p)) && Taken(Apply(s, p), p.candidate)
  { }

  /** A transaction planned on an older state keeps the invariant of the store it commits into. */
  lemma CommitKeepsSound(w: WindowSize, s: Store, snapshot: Store, p: Plan)
    requires Sizes(w) && Sound(w, s) && Sound(w, snapshot) && Follows(snapshot, s)
    requires Planned(snapshot, w, p)
    ensures Sound(w, Apply(s, p)) && Follows(s, Apply(s, p)) && Taken(Apply(s, p), p.candidate)
  {
    PlanFacts(w, snapshot, p);
    var n := Newest(s.counters);
    if p.start < n {
      CommitInOldWindow(w, s, p);
    } else if p.start == n {
      CommitInNewestWindow(w, s, p);
    } else {
      if p.base < n {
        WindowsDisjoint(w, p.base, n);
      }
      CommitInNextWindow(w, s, p);
    }
    CommitForgetsNothing(s, p);
  }

  lemma FollowsTransitive(a: Store, b: Store, c: Store)
    requires Follows(a, b) && Follows(b, c)
    ensures Follows(a, c)
  { }

  // ------------------------------------------------------------- several allocations in one transaction

  lemma ApplyKeepsFollows(w: WindowSize, a: Store, b: Store, p: Plan)
    requires Follows(a, b) && 0 <= p.base <= p.start
    ensures Follows(Apply(a, p), Apply(b, p))
  {
    NewestAfter(w, a, p);
    NewestAfter(w, b, p);
  }

  ghost predicate AllTaken(s: Store, plans: seq<Plan>) {
    forall i :: 0 <= i < |plans| ==> Taken(s, plans[i].candidate)
  }

  lemma OnePlanKeepsSound(w: WindowSize, s: Store, view: Store, p: Plan)
    requires Sizes(w) && Sound(w, s) && Sound(w, view) && Follows(view, s) && Planned(view, w, p)
    ensures Sound(w, Apply(s, p)) && Sound(w, Apply(view, p)) && Follows(Apply(view, p), Apply(s, p))
    ensures Follows(s, Apply(s, p)) && Taken(Apply(s, p), p.candidate)
  {
    CommitKeepsSound(w, s, view, p);
    CommitKeepsSound(w, view, view, p);
    PlanFacts(w, view, p);
    ApplyKeepsFollows(w, view, s, p);
  }

  lemma TakenStaysTaken(plans: seq<Plan>, s: Store, after: Store)
    requires plans != [] && AllTaken(s, plans[..|plans| - 1]) && Follows(s, after)
    requires Taken(after, plans[|plans| - 1].candidate)
    ensures AllTaken(after, plans)
  {
    forall i | 0 <= i < |plans| ensures Taken(after, plans[i].candidate) {
      assert i < |plans| - 1 ==> Taken(s, plans[..|plans| - 1][i].candidate);
    }
  }

  /** The writes of one transaction, planned on an older state, keep the invariant of the store they are
      committed into, and what it returned is taken afterwards. */
  lemma {:induction false} PlansKeepSound(w: WindowSize, s: Store, snapshot: Store, plans: seq<Plan>)
    requires Sizes(w) && Sound(w, s) && Sound(w, snapshot) && Follows(snapshot, s)
    requires PlannedAll(snapshot, w, plans)
    ensures Sound(w, ApplyAll(s, plans)) && Sound(w, ApplyAll(snapshot, plans))
    ensures Follows(ApplyAll(snapshot, plans), ApplyAll(s, plans)) && Follows(s, ApplyAll(s, plans))
    ensures AllTaken(ApplyAll(s, plans), plans)
    decreases |plans|
  {
    if plans != [] {
      var front, p := plans[..|plans| - 1], plans[|plans| - 1];
      FrontIsPlanned(snapshot, w, plans);
      PlansKeepSound(w, s, snapshot, front);
      var t, view := ApplyAll(s, front), ApplyAll(snapshot, front);
      OnePlanKeepsSound(w, t, view, p);
      FollowsTransitive(s, t, Apply(t, p));
      TakenStaysTaken(plans, t, Apply(t, p));
    }
  }

  lemma FrontIsPlanned(s: Store, w: WindowSize, plans: seq<Plan>)
    requires Sizes(w) && PlannedAll(s, w, plans) && plans != []
    ensures PlannedAll(s, w, plans[..|plans| - 1]) && Planned(ApplyAll(s, plans[..|plans| - 1]), w, plans[|plans| - 1])
  {
    var n := |plans| - 1;
    PrefixIsPlanned(s, w, plans, n);
    assert Planned(ApplyAll(s, plans[..n]), w, plans[n]);
  }

  lemma PrefixIsPlanned(s: Store, w: WindowSize, plans: seq<Plan>, n: nat)
    requires Sizes(w) && PlannedAll(s, w, plans) && n <= |plans|
    ensures PlannedAll(s, w, plans[..n])
  {
    forall i | 0 <= i < n ensures Planned(ApplyAll(s, plans[..n][..i]), w, plans[..n][i]) {
      assert plans[..n][..i] == plans[..i];
    }
  }

  /** Every allocation finds a number that was not taken when the transaction began, nor by an earlier
      allocation of the same transaction. */
  lemma NumberIsNew(w: WindowSize, s: Store, plans: seq<Plan>, a: nat)
    requires Sizes(w) && Sound(w, s) && PlannedAll(s, w, plans) && a < |plans|
    ensures !Taken(s, plans[a].candidate) && plans[a].candidate in plans[a].tried
    ensures forall b :: 0 <= b < a ==> plans[b].candidate != plans[a].candidate
  {
    PrefixIsPlanned(s, w, plans, a);
    PlansKeepSound(w, s, s, plans[..a]);
    var view := ApplyAll(s, plans[..a]);
    assert Planned(view, w, plans[a]);
    PlanFacts(w, view, plans[a]);
    forall b | 0 <= b < a ensures plans[b].candidate != plans[a].candidate {
      assert Taken(view, plans[..a][b].candidate);
    }
  }

  /** Which numbers an allocation can return: exactly the free ones of the window it settles on. */
  lemma AnyFreeNumberCanBeReturned(w: WindowSize, s: Store, number: int)
    requires Sizes(w) && Sound(w, s)
    ensures var start := ChooseStart(s, w);
      (exists p :: Planned(s, w, p) && p.candidate == number) <==>
      start <= number < start + w(start) && number !in s.recent
  {
    var start := ChooseStart(s, w);
    if p :| Planned(s, w, p) && p.candidate == number {
      PlanFacts(w, s, p);
    }
    if start <= number < start + w(start) && number !in s.recent {
      var draws := [number - start];
      SmallRemainder(number - start, w(start));
      assert Draw(start, w(start), draws[0]) == number;
      var plan := MakePlan(s, w, draws).value;
      assert Planned(s, w, plan) && plan.candidate == number;
    }
  }

  lemma SmallRemainder(a: nat, b: nat)
    requires a < b
    ensures a % b == a
  { }

  /** What a commit leaves: two more counts in its window, every number it drew marked, and if it moved on
      neither counts nor marks before its window; nothing else changes. */
  lemma CommitLeaves(w: WindowSize, s: Store, snapshot: Store, p: Plan, k: int)
    requires Sizes(w) && Sound(w, snapshot) && Planned(snapshot, w, p)
    ensures var movedOn := ChooseStart(snapshot, w) != Newest(snapshot.counters);
      && p.start == ChooseStart(snapshot, w)
      && CountAt(Apply(s, p).counters, k) ==
         (if k == p.start then CountAt(s.counters, k) + 2
          else if movedOn && k < p.start then 0
          else CountAt(s.counters, k))
      && (k in Apply(s, p).recent <==> k in p.tried || (k in s.recent && !(movedOn && k < p.start)))
  {
    PlanFacts(w, snapshot, p);
    StartIsNatural(w, p.base);
  }

  // ------------------------------------------------------------- runs

  lemma CommitAt(log: seq<Commit>, w: WindowSize, restored: bool, i: nat)
    requires Sizes(w) && Run(log, w, restored) && i < |log|
    ensures log[i].version <= i && PlannedAll(Replay(log[..log[i].version]), w, log[i].plans)
    ensures Unconflicted(log, i, restored)
  { }

  lemma RunPrefix(log: seq<Commit>, w: WindowSize, restored: bool, n: nat)
    requires Sizes(w) && Run(log, w, restored) && n <= |log|
    ensures Run(log[..n], w, restored)
  {
    var early := log[..n];
    forall i | 0 <= i < n
      ensures early[i].version <= i && PlannedAll(Replay(early[..early[i].version]), w, early[i].plans)
      ensures Unconflicted(early, i, restored)
    {
      CommitAt(log, w, restored, i);
      assert early[..log[i].version] == log[..log[i].version];
    }
  }

  ghost predicate ReturnedBy(c: Commit, number: int) {
    exists b :: 0 <= b < |c.plans| && c.plans[b].candidate == number
  }

  /** Some commit from `from` to before `to` returned the number. */
  ghost predicate Returned(log: seq<Commit>, from: nat, to: nat, number: int)
    requires to <= |log|
  {
    exists j :: from <= j < to && ReturnedBy(log[j], number)
  }

  ghost predicate Reached(log: seq<Commit>, w: WindowSize) {
    && Sound(w, Replay(log))
    && (forall v :: 0 <= v <= |log| ==> Follows(Replay(log[..v]), Replay(log)))
    && (forall number :: Returned(log, 0, |log|, number) ==> Taken(Replay(log), number))
  }

  lemma EmptyIsReached(w: WindowSize)
    ensures Reached([], w)
  {
    assert StartAt(w, 0) == 0;
    assert RecentFrom({}, 0) == {};
  }

  lemma PrefixOfSnoc<T>(xs: seq<T>, x: T, n: nat)
    requires n <= |xs| + 1
    ensures (xs + [x])[..n] == if n <= |xs| then xs[..n] else xs + [x]
  { }

  lemma CommitKeepsFollows(before: seq<Commit>, last: Commit, v: nat)
    requires v <= |before| + 1
    requires v <= |before| ==> Follows(Replay(before[..v]), Replay(before))
    requires Follows(Replay(before), Replay(before + [last]))
    ensures Follows(Replay((before + [last])[..v]), Replay(before + [last]))
  {
    PrefixOfSnoc(before, last, v);
    if v <= |before| {
      FollowsTransitive(Replay(before[..v]), Replay(before), Replay(before + [last]));
    }
  }

  lemma ReplaySnoc(before: seq<Commit>, last: Commit)
    ensures Replay(before + [last]) == ApplyAll(Replay(before), last.plans)
  {
    assert (before + [last])[..|before|] == before;
  }

  lemma CommitExtendsReached(before: seq<Commit>, early: seq<Commit>, last: Commit, w: WindowSize)
    requires Sizes(w) && Reached(before, w) && Reached(early, w)
    requires last.version <= |before| && early == before[..last.version]
    requires PlannedAll(Replay(early), w, last.plans)
    ensures Reached(before + [last], w)
  {
    var log, s := before + [last], Replay(before);
    ReplaySnoc(before, last);
    PlansKeepSound(w, s, Replay(early), last.plans);
    forall v | 0 <= v <= |log| ensures Follows(Replay(log[..v]), Replay(log)) {
      assert v <= |before| ==> Follows(Replay(before[..v]), Replay(before));
      CommitKeepsFollows(before, last, v);
    }
    forall number | Returned(log, 0, |log|, number) ensures Taken(Replay(log), number) {
      var j :| 0 <= j < |log| && ReturnedBy(log[j], number);
      if j < |before| {
        assert ReturnedBy(before[j], number);
        assert Returned(before, 0, |before|, number);
      }
    }
  }

  lemma LastInRun(log: seq<Commit>, last: Commit)
    requires log != [] && last == log[|log| - 1] && last.version <= |log| - 1
    ensures log == log[..|log| - 1] + [last]
    ensures log[..|log| - 1][..last.version] == log[..last.version]
  { }

  lemma {:induction false} RunIsSound(log: seq<Commit>, w: WindowSize, restored: bool)
    requires Sizes(w) && Run(log, w, restored)
    ensures Reached(log, w)
    decreases |log|
  {
    if log == [] {
      EmptyIsReached(w);
    } else {
      var n, last := |log| - 1, log[|log| - 1];
      CommitAt(log, w, restored, n);
      RunPrefix(log, w, restored, n);
      RunPrefix(log, w, restored, last.version);
      RunIsSound(log[..n], w, restored);
      RunIsSound(log[..last.version], w, restored);
      LastInRun(log, last);
      CommitExtendsReached(log[..n], log[..last.version], last, w);
    }
  }

  // ------------------------------------------------------------- main results

  function TakenWithin(recent: set<int>, start: int, window: int): set<int> {
    set x | x in recent && start <= x < start + window
  }

  lemma SoundLeavesHalfFree(w: WindowSize, s: Store)
    requires Sizes(w) && Sound(w, s)
    ensures var start := ChooseStart(s, w); 2 * |TakenWithin(Visible(s, start), start, w(start))| < w(start)
  {
    var start := ChooseStart(s, w);
    var taken := TakenWithin(Visible(s, start), start, w(start));
    if start == Newest(s.counters) {
      SubsetSize(taken, RecentFrom(s.recent, start));
    } else {
      assert w(Newest(s.counters)) >= 3 && w(start) >= 3;
      assert taken == {};
    }
  }

  /** When candidates start being drawn, more than half of the chosen window is free, for every allocation
      on every state a run can reach. */
  lemma MoreThanHalfIsFree(log: seq<Commit>, w: WindowSize, restored: bool, plans: seq<Plan>)
    requires Sizes(w) && Run(log, w, restored) && PlannedAll(Replay(log), w, plans)
    ensures var view := ApplyAll(Replay(log), plans);
      var start := ChooseStart(view, w);
      2 * |TakenWithin(Visible(view, start), start, w(start))| < w(start)
  {
    RunIsSound(log, w, restored);
    PlansKeepSound(w, Replay(log), Replay(log), plans);
    SoundLeavesHalfFree(w, ApplyAll(Replay(log), plans));
  }

  lemma ReturnedIsTaken(log: seq<Commit>, w: WindowSize, restored: bool, v: nat, number: int)
    requires Sizes(w) && Run(log, w, restored) && v <= |log|
    ensures Returned(log, 0, v, number) ==> Taken(Replay(log[..v]), number)
  {
    RunPrefix(log, w, restored, v);
    RunIsSound(log[..v], w, restored);
    forall j | 0 <= j < v && ReturnedBy(log[j], number) ensures Taken(Replay(log[..v]), number) {
      assert ReturnedBy(log[..v][j], number);
      assert Returned(log[..v], 0, v, number);
    }
  }

  /** What a transaction returns was never returned before it took its snapshot. */
  lemma NumberIsNewSince(log: seq<Commit>, w: WindowSize, restored: bool, i: nat, a: nat)
    requires Sizes(w) && Run(log, w, restored) && i < |log| && a < |log[i].plans|
    ensures var number := log[i].plans[a].candidate;
      && log[i].version <= i && !Returned(log, 0, log[i].version, number)
      && number in log[i].plans[a].tried
      && forall b :: 0 <= b < a ==> log[i].plans[b].candidate != number
  {
    var v := log[i].version;
    CommitAt(log, w, restored, i);
    RunPrefix(log, w, restored, v);
    RunIsSound(log[..v], w, restored);
    NumberIsNew(w, Replay(log[..v]), log[i].plans, a);
    ReturnedIsTaken(log, w, restored, v, log[i].plans[a].candidate);
  }

  /** As the code is written, a committed number repeats an earlier one exactly when the same number was
      committed after the transaction took its snapshot: the check the dropped conflict would do. */
  lemma RepeatsIffMissedConflict(log: seq<Commit>, w: WindowSize, restored: bool, i: nat, a: nat)
    requires Sizes(w) && Run(log, w, restored) && i < |log| && a < |log[i].plans|
    ensures var number := log[i].plans[a].candidate;
      Returned(log, 0, i, number) <==> Returned(log, log[i].version, i, number)
  {
    NumberIsNewSince(log, w, restored, i, a);
    ReturnedInParts(log, log[i].version, i, log[i].plans[a].candidate);
  }

  lemma ReturnedInParts(log: seq<Commit>, v: nat, i: nat, number: int)
    requires v <= i <= |log|
    ensures Returned(log, 0, i, number) <==> Returned(log, 0, v, number) || Returned(log, v, i, number)
  {
    forall j | 0 <= j < i && ReturnedBy(log[j], number)
      ensures Returned(log, 0, v, number) || Returned(log, v, i, number) { }
  }

  /** No number is returned twice, by one transaction or by two. */
  ghost predicate AllDistinct(log: seq<Commit>) {
    forall i, a :: 0 <= i < |log| && 0 <= a < |log[i].plans| ==> IsNewAt(log, i, a)
  }

  ghost predicate IsNewAt(log: seq<Commit>, i: nat, a: nat)
    requires i < |log| && a < |log[i].plans|
  {
    && !Returned(log, 0, i, log[i].plans[a].candidate)
    && forall b :: 0 <= b < a ==> log[i].plans[b].candidate != log[i].plans[a].candidate
  }

  lemma {:induction false} TriedByOne(plans: seq<Plan>, a: nat)
    requires a < |plans|
    ensures plans[a].tried <= Tried(plans) && plans[a].tried <= WriteConflicts(plans, true)
    decreases |plans|
  {
    if a < |plans| - 1 {
      TriedByOne(plans[..|plans| - 1], a);
    }
  }

  /** With the returned numbers' write conflicts in place, no run returns a number twice. */
  lemma NumbersAreUnique(log: seq<Commit>, w: WindowSize)
    requires Sizes(w) && Run(log, w, true)
    ensures AllDistinct(log)
  {
    forall i, a | 0 <= i < |log| && 0 <= a < |log[i].plans| ensures IsNewAt(log, i, a) {
      var number := log[i].plans[a].candidate;
      RepeatsIffMissedConflict(log, w, true, i, a);
      NumberIsNewSince(log, w, true, i, a);
      TriedByOne(log[i].plans, a);
      if Returned(log, log[i].version, i, number) {
        var j :| log[i].version <= j < i && ReturnedBy(log[j], number);
        ConflictFound(log, w, i, j, number);
      }
    }
  }

  lemma ConflictFound(log: seq<Commit>, w: WindowSize, i: nat, j: nat, number: int)
    requires Sizes(w) && Run(log, w, true) && j < i < |log| && log[i].version <= j
    requires ReturnedBy(log[j], number)
    ensures number !in Tried(log[i].plans)
  {
    var b :| 0 <= b < |log[j].plans| && log[j].plans[b].candidate == number;
    NumberIsNewSince(log, w, true, j, b);
    TriedByOne(log[j].plans, b);
    CommitAt(log, w, true, i);
  }

  ghost predicate Serial(log: seq<Commit>) {
    forall i :: 0 <= i < |log| ==> log[i].version == i
  }

  /** As written, transactions run one after another never repeat a number either. */
  lemma SerialNumbersAreUnique(log: seq<Commit>, w: WindowSize)
    requires Sizes(w) && Run(log, w, false) && Serial(log)
    ensures AllDistinct(log)
  {
    forall i, a | 0 <= i < |log| && 0 <= a < |log[i].plans| ensures IsNewAt(log, i, a) {
      NumberIsNewSince(log, w, false, i, a);
    }
  }

  // ------------------------------------------------------------- counterexamples

  lemma OnePlan(s: Store, w: WindowSize, draws: seq<nat>, p: Plan)
    requires Sizes(w) && MakePlan(s, w, draws) == Some(p)
    ensures PlannedAll(s, w, [p]) && ApplyAll(s, [p]) == Apply(s, p)
    ensures Tried([p]) == p.tried && forall r :: WriteConflicts([p], r) == if r then p.tried else p.tried - {p.candidate}
  {
    assert [p][..0] == [];
    assert {} + p.tried == p.tried && {} + (p.tried - {p.candidate}) == p.tried - {p.candidate};
  }

  lemma FirstPlan(w: WindowSize) returns (p: Plan)
    requires Sizes(w)
    ensures p == Plan(0, 0, {0}, 0) && MakePlan(EMPTY, w, [0]) == Some(p)
  {
    p := Plan(0, 0, {0}, 0);
    assert w(0) >= 3;
    assert Draw(0, w(0), 0) == 0;
    assert Pick({}, 0, w(0), [0]) == Some(({0}, 0));
  }

  /** A run grows by one commit. */
  lemma RunSnoc(log: seq<Commit>, c: Commit, w: WindowSize, restored: bool)
    requires Sizes(w) && Run(log, w, restored) && c.version <= |log|
    requires PlannedAll(Replay(log[..c.version]), w, c.plans)
    requires forall j :: c.version <= j < |log| ==> WriteConflicts(log[j].plans, restored) !! Tried(c.plans)
    ensures Run(log + [c], w, restored)
  {
    var more := log + [c];
    forall i | 0 <= i < |more|
      ensures more[i].version <= i && PlannedAll(Replay(more[..more[i].version]), w, more[i].plans)
      ensures Unconflicted(more, i, restored)
    {
      if i < |log| {
        CommitAt(log, w, restored, i);
        assert more[..log[i].version] == log[..log[i].version];
      } else {
        assert more[..c.version] == log[..c.version];
      }
    }
  }

  lemma EmptyRun(w: WindowSize, restored: bool)
    requires Sizes(w)
    ensures Run([], w, restored) && Replay([]) == EMPTY
  { }

  /** As written, two overlapping transactions can both commit the number 0. */
  lemma OverlappingRunRepeats() returns (log: seq<Commit>, w: WindowSize)
    ensures Sizes(w) && Run(log, w, false) && !AllDistinct(log)
  {
    w := _ => 64;
    log := Overlap(w);
  }

  lemma Overlap(w: WindowSize) returns (log: seq<Commit>)
    requires Sizes(w)
    ensures Run(log, w, false) && !AllDistinct(log)
  {
    var p := FirstPlan(w);
    OnePlan(EMPTY, w, [0], p);
    var c := Commit(0, [p]);
    var none: seq<Commit> := [];
    EmptyRun(w, false);
    RunSnoc(none, c, w, false);
    var one := none + [c];
    assert one[..0] == none && one[0] == c;
    RunSnoc(one, c, w, false);
    log := one + [c];
    TwiceTheSame(log, c, 0);
  }

  lemma TwiceTheSame(log: seq<Commit>, c: Commit, number: int)
    requires log == [c, c] && |c.plans| == 1 && c.plans[0].candidate == number
    ensures !AllDistinct(log)
  {
    assert ReturnedBy(log[0], number);
    assert Returned(log, 0, 1, number);
    assert log[1].plans[0].candidate == number;
    assert !IsNewAt(log, 1, 0);
  }
}
