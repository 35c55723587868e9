/** Admission to the unified read pool: `spawn` tests a shared gauge and increments it in two
    separate steps, so several threads can pass the test before any of them increments. */
module ReadPool {
  import opened Common

  /** Where a thread stands inside `spawn`: `Passed` is between the test and the increment. */
  datatype Phase = Outside | Passed

  datatype Pool = Pool(running: int, phases: seq<Phase>, admitted: nat, finished: nat)

  datatype Action = Test(thread: nat) | Increment(thread: nat) | Complete

  datatype ReadPoolError = UnifiedReadPoolFull

  function Start(threads: nat): Pool {
    Pool(0, seq(threads, _ => Outside), 0, 0)
  }

  predicate Enabled(p: Pool, a: Action) {
    match a
    case Test(t) => t < |p.phases| && p.phases[t].Outside?
    case Increment(t) => t < |p.phases| && p.phases[t].Passed?
    case Complete => p.finished < p.admitted
  }

  function Step(p: Pool, maxTasks: nat, a: Action): Pool
    requires Enabled(p, a)
  {
    match a
    case Test(t) => if p.running >= maxTasks then p else p.(phases := p.phases[t := Passed])
    case Increment(t) =>
      p.(running := p.running + 1, admitted := p.admitted + 1, phases := p.phases[t := Outside])
    case Complete => p.(running := p.running - 1, finished := p.finished + 1)
  }

  /** The shared state the threads act on; every method is one atomic step of one thread. */
  class UnifiedPool {
    const maxTasks: nat
    var running: int
    var phases: seq<Phase>
    ghost var admitted: nat
    ghost var finished: nat

    ghost function State(): Pool
      reads this
    {
      Pool(running, phases, admitted, finished)
    }

    /** Running tasks are those admitted and not finished, and never exceed the limit by as much as the
        number of threads. */
    ghost predicate Valid()
      reads this
    {
      && Invariant(State(), maxTasks)
      && running == admitted - finished >= 0
      && (maxTasks > 0 && phases != [] ==> running <= maxTasks + |phases| - 1)
    }

    constructor (maxTasks: nat, threads: nat)
      ensures Valid() && State() == Start(threads) && this.maxTasks == maxTasks
    {
      this.maxTasks := maxTasks;
      running, phases := 0, seq(threads, _ => Outside);
      admitted, finished := 0, 0;
      new;
      NobodyPassed(threads);
    }

    /** The limit test at the top of `spawn`. */
    method TestLimit(t: nat) returns (r: Result<(), ReadPoolError>)
      requires Valid() && Enabled(State(), Test(t))
      modifies this
      ensures Valid()
      ensures State() == Step(old(State()), maxTasks, Test(t))
      ensures r.Err? <==> old(running) >= maxTasks
      ensures r.Ok? <==> phases[t].Passed?
    {
      StepKeepsInvariant(State(), maxTasks, Test(t));
      if running >= maxTasks {
        return Err(UnifiedReadPoolFull);
      }
      phases := phases[t := Passed];
      return Ok(());
    }

    /** The increment, after which the future is handed to the pool and `spawn` returns. */
    method Admit(t: nat)
      requires Valid() && Enabled(State(), Increment(t))
      modifies this
      ensures Valid()
      ensures State() == Step(old(State()), maxTasks, Increment(t))
    {
      StepKeepsInvariant(State(), maxTasks, Increment(t));
      running := running + 1;
      phases := phases[t := Outside];
      admitted := admitted + 1;
    }

    /** The decrement a task performs once its future resolves. */
    method FinishTask()
      requires Valid() && Enabled(State(), Complete)
      modifies this
      ensures Valid()
      ensures State() == Step(old(State()), maxTasks, Complete)
    {
      StepKeepsInvariant(State(), maxTasks, Complete);
      running := running - 1;
      finished := finished + 1;
    }
  }

  ghost predicate Runs(p: Pool, maxTasks: nat, actions: seq<Action>, q: Pool)
    decreases |actions|
  {
    if actions == [] then p == q
    else Enabled(p, actions[0]) && Runs(Step(p, maxTasks, actions[0]), maxTasks, actions[1..], q)
  }

  function PassedCount(phases: seq<Phase>): nat {
    if phases == [] then 0 else (if phases[0].Passed? then 1 else 0) + PassedCount(phases[1..])
  }

  lemma {:induction false} PassedCountUpdate(phases: seq<Phase>, t: nat, to: Phase)
    requires t < |phases|
    ensures PassedCount(phases[t := to]) ==
            PassedCount(phases) - (if phases[t].Passed? then 1 else 0) + (if to.Passed? then 1 else 0)
  {
    if t == 0 {
      assert phases[t := to][1..] == phases[1..];
    } else {
      assert phases[t := to][1..] == phases[1..][t - 1 := to];
      PassedCountUpdate(phases[1..], t - 1, to);
    }
  }

  lemma {:induction false} PassedCountBound(phases: seq<Phase>)
    ensures PassedCount(phases) <= |phases|
    ensures (exists t :: 0 <= t < |phases| && phases[t].Outside?) ==> PassedCount(phases) < |phases|
  {
    if phases != [] {
      PassedCountBound(phases[1..]);
      if t :| 0 <= t < |phases| && phases[t].Outside? {
        if t > 0 {
          assert phases[1..][t - 1].Outside?;
        }
      }
    }
  }

  ghost predicate Invariant(p: Pool, maxTasks: nat) {
    && p.running == p.admitted - p.finished
    && p.finished <= p.admitted
    && (PassedCount(p.phases) > 0 ==> maxTasks > 0)
    && p.running + PassedCount(p.phases) <= (if maxTasks == 0 then 0 else maxTasks + |p.phases| - 1)
  }

  lemma StepKeepsInvariant(p: Pool, maxTasks: nat, a: Action)
    requires Invariant(p, maxTasks) && Enabled(p, a)
    ensures Invariant(Step(p, maxTasks, a), maxTasks) && |Step(p, maxTasks, a).phases| == |p.phases|
  {
    PassedCountBound(p.phases);
    match a
    case Test(t) => PassedCountUpdate(p.phases, t, Passed);
    case Increment(t) => PassedCountUpdate(p.phases, t, Outside);
    case Complete =>
  }

  lemma {:induction false} RunKeepsInvariant(p: Pool, maxTasks: nat, actions: seq<Action>, q: Pool)
    requires Invariant(p, maxTasks) && Runs(p, maxTasks, actions, q)
    ensures Invariant(q, maxTasks) && |q.phases| == |p.phases|
    decreases |actions|
  {
    if actions != [] {
      StepKeepsInvariant(p, maxTasks, actions[0]);
      RunKeepsInvariant(Step(p, maxTasks, actions[0]), maxTasks, actions[1..], q);
    }
  }

  lemma {:induction false} NobodyPassed(threads: nat)
    ensures PassedCount(seq(threads, _ => Outside)) == 0
    decreases threads
  {
    if threads > 0 {
      assert (seq(threads, _ => Outside))[1..] == seq(threads - 1, _ => Outside);
      NobodyPassed(threads - 1);
    }
  }

  /** Over every interleaving of `threads` threads the gauge counts exactly the unfinished tasks and
      overshoots the limit by at most `threads - 1`; a zero limit admits nothing. */
  lemma OvershootIsBounded(maxTasks: nat, threads: nat, actions: seq<Action>, q: Pool)
    requires threads > 0
    requires Runs(Start(threads), maxTasks, actions, q)
    ensures q.running == q.admitted - q.finished >= 0
    ensures maxTasks > 0 ==> q.running <= maxTasks + threads - 1
    ensures maxTasks == 0 ==> q.admitted == 0
  {
    NobodyPassed(threads);
    RunKeepsInvariant(Start(threads), maxTasks, actions, q);
    if maxTasks == 0 {
      NothingAdmitted(Start(threads), actions, q);
    }
  }

  lemma {:induction false} NothingAdmitted(p: Pool, actions: seq<Action>, q: Pool)
    requires Invariant(p, 0) && p.admitted == 0 && Runs(p, 0, actions, q)
    ensures q.admitted == 0
    decreases |actions|
  {
    if actions != [] {
      StepKeepsInvariant(p, 0, actions[0]);
      if actions[0].Increment? {
        assert false;
      }
      NothingAdmitted(Step(p, 0, actions[0]), actions[1..], q);
    }
  }

  lemma {:induction false} RunsConcat(p: Pool, maxTasks: nat, xs: seq<Action>, m: Pool, ys: seq<Action>, q: Pool)
    requires Runs(p, maxTasks, xs, m) && Runs(m, maxTasks, ys, q)
    ensures Runs(p, maxTasks, xs + ys, q)
    decreases |xs|
  {
    if xs == [] {
      assert xs + ys == ys;
    } else {
      RunsConcat(Step(p, maxTasks, xs[0]), maxTasks, xs[1..], m, ys, q);
      assert (xs + ys)[1..] == xs[1..] + ys;
    }
  }

  function Threads(threads: nat, passed: nat): seq<Phase>
    requires passed <= threads
  {
    seq(threads, t => if t < passed then Passed else Outside)
  }

  /** Thread 0 alone fills the pool to `count` tasks. */
  lemma {:induction false} FillAlone(maxTasks: nat, threads: nat, count: nat) returns (actions: seq<Action>)
    requires threads > 0 && count <= maxTasks
    ensures Runs(Start(threads), maxTasks, actions, Start(threads).(running := count, admitted := count))
    decreases count
  {
    if count == 0 {
      actions := [];
    } else {
      var before := FillAlone(maxTasks, threads, count - 1);
      var p := Start(threads).(running := count - 1, admitted := count - 1);
      var q := Start(threads).(running := count, admitted := count);
      var passed := Step(p, maxTasks, Test(0));
      assert Step(passed, maxTasks, Increment(0)) == q;
      assert Runs(q, maxTasks, [], q);
      assert Runs(passed, maxTasks, [Increment(0)], q);
      assert [Test(0), Increment(0)][1..] == [Increment(0)];
      assert Runs(p, maxTasks, [Test(0), Increment(0)], q);
      actions := before + [Test(0), Increment(0)];
      RunsConcat(Start(threads), maxTasks, before, p, [Test(0), Increment(0)], q);
    }
  }

  /** From one free slot, every thread passes the test before any of them increments. */
  lemma {:induction false} EveryonePasses(maxTasks: nat, threads: nat, passed: nat, running: nat)
    returns (actions: seq<Action>)
    requires passed <= threads && running < maxTasks
    ensures Runs(Pool(running, Threads(threads, 0), running, 0), maxTasks, actions,
                 Pool(running, Threads(threads, passed), running, 0))
    decreases passed
  {
    if passed == 0 {
      actions := [];
    } else {
      var before := EveryonePasses(maxTasks, threads, passed - 1, running);
      var p := Pool(running, Threads(threads, passed - 1), running, 0);
      var q := Pool(running, Threads(threads, passed), running, 0);
      assert Step(p, maxTasks, Test(passed - 1)).phases == q.phases;
      assert Runs(q, maxTasks, [], q);
      assert Runs(p, maxTasks, [Test(passed - 1)], q);
      actions := before + [Test(passed - 1)];
      RunsConcat(Pool(running, Threads(threads, 0), running, 0), maxTasks, before, p, [Test(passed - 1)], q);
    }
  }

  /** All the threads that passed now increment, the last one first. */
  lemma {:induction false} EveryoneIncrements(maxTasks: nat, threads: nat, passed: nat, running: nat)
    returns (actions: seq<Action>)
    requires passed <= threads
    ensures Runs(Pool(running, Threads(threads, passed), running, 0), maxTasks, actions,
                 Pool(running + passed, Threads(threads, 0), running + passed, 0))
    decreases passed
  {
    if passed == 0 {
      actions := [];
    } else {
      var p := Pool(running, Threads(threads, passed), running, 0);
      var q := Step(p, maxTasks, Increment(passed - 1));
      assert q.phases == Threads(threads, passed - 1);
      var after := EveryoneIncrements(maxTasks, threads, passed - 1, running + 1);
      actions := [Increment(passed - 1)] + after;
      assert actions[1..] == after;
    }
  }

  /** The bound of `OvershootIsBounded` is exact: some interleaving reaches it. */
  lemma OvershootIsReached(maxTasks: nat, threads: nat) returns (actions: seq<Action>, q: Pool)
    requires maxTasks > 0 && threads > 0
    ensures Runs(Start(threads), maxTasks, actions, q) && q.running == maxTasks + threads - 1
  {
    var n := maxTasks - 1;
    var p := Start(threads).(running := n, admitted := n);
    var fill := FillAlone(maxTasks, threads, n);
    assert p.phases == Threads(threads, 0);
    var pass := EveryonePasses(maxTasks, threads, threads, n);
    var inc := EveryoneIncrements(maxTasks, threads, threads, n);
    q := Pool(n + threads, Threads(threads, 0), n + threads, 0);
    RunsConcat(p, maxTasks, pass, Pool(n, Threads(threads, threads), n, 0), inc, q);
    RunsConcat(Start(threads), maxTasks, fill, p, pass + inc, q);
    actions := fill + (pass + inc);
  }
}
