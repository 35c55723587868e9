/** The high-contention allocator: numbers are drawn at random from a sliding window of a
    transactional store. `counters` maps a window start to how often the window was used and
    `recent` holds the numbers taken from the newest windows. */
module Allocator {
  import opened Common

  datatype Store = Store(counters: map<int, nat>, recent: set<int>)

  /** What a transaction writes: it counted at `base`, settled on the window at `start`, wrote every
      key in `tried` and returned `candidate`. */
  datatype Plan = Plan(base: int, start: int, tried: set<int>, candidate: int)

  type WindowSize = int -> int

  ghost predicate Sizes(w: WindowSize) {
    forall s :: w(s) >= 3
  }

  ghost predicate IsLast(keys: set<int>, k: int) {
    k in keys && forall j :: j in keys ==> j <= k
  }

  lemma {:induction false} HasLast(keys: set<int>) returns (k: int)
    requires keys != {}
    ensures IsLast(keys, k)
    decreases |keys|
  {
    var x := PickAny(keys);
    var rest := keys - {x};
    assert forall j :: j in keys ==> j == x || j in rest;
    if rest == {} {
      k := x;
    } else {
      var m := HasLast(rest);
      k := if m < x then x else m;
    }
  }

  /** The key returned by the reversed, one-row range read of the counters; 0 when there is none. */
  function Newest(counters: map<int, nat>): (k: int)
    ensures counters.Keys != {} ==> k in counters
    ensures forall j :: j in counters ==> j <= k
  {
    if counters.Keys == {} then 0
    else
      assert exists k :: k in counters.Keys && forall j :: j in counters.Keys ==> j <= k by {
        var m := HasLast(counters.Keys);
        assert IsLast(counters.Keys, m);
      }
      var k :| k in counters.Keys && forall j :: j in counters.Keys ==> j <= k;
      k
  }

  function CountAt(counters: map<int, nat>, k: int): nat {
    if k in counters then counters[k] else 0
  }

  /** The store's atomic `add` of one. */
  function AddOne(counters: map<int, nat>, k: int): map<int, nat> {
    counters[k := CountAt(counters, k) + 1]
  }

  function CountersFrom(counters: map<int, nat>, start: int): map<int, nat> {
    map k | k in counters && k >= start :: counters[k]
  }

  function RecentFrom(recent: set<int>, start: int): set<int> {
    set x | x in recent && x >= start
  }

  /** The counters once a window is chosen: the old window's was raised, and if that was in vain everything
      before the new window was cleared and the new window's raised. */
  function CountersAt(counters: map<int, nat>, base: int, start: int): map<int, nat> {
    if start > base then AddOne(CountersFrom(AddOne(counters, base), start), start)
    else AddOne(counters, base)
  }

  /** The transaction's writes applied to whatever the store holds when it commits. */
  function Apply(s: Store, p: Plan): Store {
    if p.start > p.base then
      Store(AddOne(CountersAt(s.counters, p.base, p.start), p.start), RecentFrom(s.recent, p.start) + p.tried)
    else
      Store(AddOne(CountersAt(s.counters, p.base, p.start), p.base), s.recent + p.tried)
  }

  /** The window a transaction settles on: the newest one while less than half used, else the next. */
  function ChooseStart(s: Store, w: WindowSize): int {
    var base := Newest(s.counters);
    if (CountAt(s.counters, base) + 1) * 2 < w(base) then base else base + w(base)
  }

  /** The numbers visible as taken once the window is chosen. */
  function Visible(s: Store, start: int): set<int> {
    if start > Newest(s.counters) then RecentFrom(s.recent, start) else s.recent
  }

  function Draw(start: int, window: int, draw: nat): int
    requires window > 0
  {
    start + draw % window
  }

  /** The draws made before the first free one, and that one; `None` if every draw was taken. */
  function Pick(taken: set<int>, start: int, window: int, draws: seq<nat>): Option<(set<int>, int)>
    requires window > 0
  {
    if draws == [] then None
    else
      var c := Draw(start, window, draws[0]);
      if c !in taken then Some(({c}, c))
      else Prepend({c}, Pick(taken, start, window, draws[1..]))
  }

  function Prepend(tried: set<int>, r: Option<(set<int>, int)>): Option<(set<int>, int)> {
    match r
    case None => None
    case Some(p) => Some((tried + p.0, p.1))
  }

  lemma PrependNothing(r: Option<(set<int>, int)>)
    ensures Prepend({}, r) == r
  {
    if r.Some? {
      assert {} + r.value.0 == r.value.0;
    }
  }

  lemma PrependTwice(a: set<int>, b: set<int>, r: Option<(set<int>, int)>)
    ensures Prepend(a, Prepend(b, r)) == Prepend(a + b, r)
  {
    if r.Some? {
      assert a + (b + r.value.0) == a + b + r.value.0;
    }
  }

  /** The writes `allocate` makes on snapshot `s` when the generator yields `draws`. */
  function MakePlan(s: Store, w: WindowSize, draws: seq<nat>): Option<Plan>
    requires w(ChooseStart(s, w)) > 0
  {
    var start := ChooseStart(s, w);
    match Pick(Visible(s, start), start, w(start), draws)
    case None => None
    case Some(r) => Some(Plan(Newest(s.counters), start, r.0, r.1))
  }

  /** What a generator can make `allocate` write on `s`. */
  ghost predicate Planned(s: Store, w: WindowSize, p: Plan)
    requires Sizes(w)
  {
    exists draws :: MakePlan(s, w, draws) == Some(p)
  }

  function ApplyAll(s: Store, plans: seq<Plan>): Store {
    if plans == [] then s else Apply(ApplyAll(s, plans[..|plans| - 1]), plans[|plans| - 1])
  }

  /** Allocations one after another, each on what the ones before it left. */
  ghost predicate PlannedAll(s: Store, w: WindowSize, plans: seq<Plan>)
    requires Sizes(w)
  {
    forall i :: 0 <= i < |plans| ==> Planned(ApplyAll(s, plans[..i]), w, plans[i])
  }

  lemma OneMorePlan(s: Store, w: WindowSize, plans: seq<Plan>, p: Plan)
    requires Sizes(w) && PlannedAll(s, w, plans) && Planned(ApplyAll(s, plans), w, p)
    ensures PlannedAll(s, w, plans + [p]) && ApplyAll(s, plans + [p]) == Apply(ApplyAll(s, plans), p)
  {
    var more := plans + [p];
    assert more[..|plans|] == plans;
    forall i | 0 <= i < |more| ensures Planned(ApplyAll(s, more[..i]), w, more[i]) {
      assert more[..i] == plans[..i];
    }
  }

  /** A transaction's view of the store: its snapshot overlaid with its own writes. Several allocations can
      be made in one transaction. */
  class Transaction {
    const w: WindowSize
    ghost const snapshot: Store
    ghost var plans: seq<Plan>
    var counters: map<int, nat>
    var recent: set<int>

    ghost function View(): Store
      reads this
    {
      Store(counters, recent)
    }

    ghost predicate Valid()
      reads this
    {
      Sizes(w) && PlannedAll(snapshot, w, plans) && View() == ApplyAll(snapshot, plans)
    }

    constructor (s: Store, w: WindowSize)
      requires Sizes(w)
      ensures Valid() && snapshot == s && plans == [] && this.w == w
    {
      this.w, snapshot, plans := w, s, [];
      counters, recent := s.counters, s.recent;
    }

    /** Finds a window that is not yet half used, clearing everything before it if it has to move on. */
    method AdvanceWindow() returns (start: int, window: int)
      requires Sizes(w)
      modifies this`counters, this`recent
      ensures start == ChooseStart(old(View()), w) && window == w(start)
      ensures counters == CountersAt(old(View()).counters, Newest(old(View()).counters), start)
      ensures recent == Visible(old(View()), start)
    {
      ghost var s := View();
      start := Newest(counters);
      var windowAdvanced := false;
      ghost var base := start;
      while true
        invariant !windowAdvanced ==> start == base && View() == s
        invariant windowAdvanced ==>
          start == base + w(base) == ChooseStart(s, w) && recent == s.recent &&
          counters == AddOne(s.counters, base)
        decreases !windowAdvanced
      {
        if windowAdvanced {
          counters := CountersFrom(counters, start);
          recent := RecentFrom(recent, start);
        }
        counters := AddOne(counters, start);
        var count := counters[start];
        window := w(start);
        if count * 2 < window {
          break;
        }
        start := start + window;
        windowAdvanced := true;
      }
    }

    /** `draws` stands for the random generator. `None`: all of them hit taken numbers, the loop is
        still drawing. */
    method Allocate(draws: seq<nat>) returns (r: Option<int>)
      requires Valid()
      modifies this
      ensures r.Some? <==> MakePlan(old(View()), w, draws).Some?
      ensures r.Some? ==> Valid() && plans == old(plans) + [MakePlan(old(View()), w, draws).value]
      ensures r.Some? ==> r.value == plans[|plans| - 1].candidate
    {
      ghost var before := View();
      r := DrawCandidate(draws);
      if r.Some? {
        ghost var plan := MakePlan(before, w, draws).value;
        OneMorePlan(snapshot, w, plans, plan);
        plans := plans + [plan];
      }
    }

    /** The window advance and the candidate search. */
    method DrawCandidate(draws: seq<nat>) returns (r: Option<int>)
      requires Sizes(w)
      modifies this`counters, this`recent
      ensures r.Some? <==> MakePlan(old(View()), w, draws).Some?
      ensures r.Some? ==>
        var plan := MakePlan(old(View()), w, draws).value;
        r.value == plan.candidate && View() == Apply(old(View()), plan)
    {
      ghost var s := View();
      var start, window := AdvanceWindow();
      counters := AddOne(counters, start);
      ghost var taken, tried := recent, {};
      assert draws[0..] == draws;
      PrependNothing(Pick(taken, start, window, draws));
      var i := 0;
      while i < |draws|
        invariant 0 <= i <= |draws|
        invariant recent == taken + tried && tried <= taken
        invariant counters == Apply(s, Plan(Newest(s.counters), start, {}, 0)).counters
        invariant Pick(taken, start, window, draws) == Prepend(tried, Pick(taken, start, window, draws[i..]))
      {
        var candidate := Draw(start, window, draws[i]);
        var currentStart := Newest(counters);
        var candidateTaken := candidate in recent;
        recent := recent + {candidate};
        assert draws[i..][1..] == draws[i + 1..];
        if currentStart > start {
          assert false;
          break;
        }
        if !candidateTaken {
          assert Pick(taken, start, window, draws[i..]).value == ({candidate}, candidate);
          return Some(candidate);
        }
        PrependTwice(tried, {candidate}, Pick(taken, start, window, draws[i + 1..]));
        tried := tried + {candidate};
        i := i + 1;
      }
      return None;
    }
  }

  // ------------------------------------------------------------- concurrent runs

  /** A committed transaction: it read the store as it was after `version` commits. */
  datatype Commit = Commit(version: nat, plans: seq<Plan>)

  const EMPTY := Store(map[], {})

  function Replay(log: seq<Commit>): Store {
    if log == [] then EMPTY else ApplyAll(Replay(log[..|log| - 1]), log[|log| - 1].plans)
  }

  /** The keys a transaction reads with a conflict. */
  function Tried(plans: seq<Plan>): set<int> {
    if plans == [] then {} else Tried(plans[..|plans| - 1]) + plans[|plans| - 1].tried
  }

  /** The keys other transactions' reads are checked against. As written only candidates found taken
      are set with a write conflict, because the option dropping it precedes the first set of each key;
      `restored` adds the conflict for the numbers actually returned. */
  function WriteConflicts(plans: seq<Plan>, restored: bool): set<int> {
    if plans == [] then {}
    else
      var p := plans[|plans| - 1];
      WriteConflicts(plans[..|plans| - 1], restored) + if restored then p.tried else p.tried - {p.candidate}
  }

  /** Optimistic concurrency control: a commit is refused if a key it read was written meanwhile. */
  ghost predicate Unconflicted(log: seq<Commit>, i: nat, restored: bool)
    requires i < |log|
  {
    forall j :: log[i].version <= j < i ==> WriteConflicts(log[j].plans, restored) !! Tried(log[i].plans)
  }

  /** Any run at all: every commit was planned on some earlier state and passed the conflict check. */
  ghost predicate Run(log: seq<Commit>, w: WindowSize, restored: bool)
    requires Sizes(w)
  {
    forall i :: 0 <= i < |log| ==>
      && log[i].version <= i
      && PlannedAll(Replay(log[..log[i].version]), w, log[i].plans)
      && Unconflicted(log, i, restored)
  }
}
