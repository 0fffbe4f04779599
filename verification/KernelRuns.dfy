/** Runs of the kernel seen from outside: what the steps taken say about semaphore values, about who is dispatched
    and about which threads exist (threads/synch.cc, threads/thread.cc, threads/scheduler.cc). */
module KernelRuns {
  import opened Basics
  import opened Kernel

  // ----- parts of runs

  lemma {:induction false} RunStep(trace: seq<State>, actions: seq<Action>, i: nat)
    requires Run(trace, actions) && i < |actions|
    ensures Enabled(trace[i], actions[i]) && trace[i + 1] == Step(trace[i], actions[i])
    decreases |actions|
  {
    var n := |actions| - 1;
    if i < n {
      RunStep(trace[..n + 1], actions[..n], i);
    }
  }

  lemma {:induction false} RunPrefix(trace: seq<State>, actions: seq<Action>, p: nat)
    requires Run(trace, actions) && p <= |actions|
    ensures Run(trace[..p + 1], actions[..p])
    decreases |actions|
  {
    var n := |actions| - 1;
    if p < |actions| {
      RunPrefix(trace[..n + 1], actions[..n], p);
      assert trace[..n + 1][..p + 1] == trace[..p + 1] && actions[..n][..p] == actions[..p];
    } else {
      assert trace[..p + 1] == trace && actions[..p] == actions;
    }
  }

  lemma {:induction false} RunSuffix(trace: seq<State>, actions: seq<Action>)
    requires Run(trace, actions) && actions != []
    ensures Run(trace[1..], actions[1..])
    decreases |actions|
  {
    var n := |actions| - 1;
    if n > 0 {
      RunSuffix(trace[..n + 1], actions[..n]);
      assert trace[1..][..n] == trace[..n + 1][1..] && actions[1..][..n - 1] == actions[..n][1..];
    }
  }

  // ----- units

  /** The step is a test of s by a thread that goes on after it. */
  ghost predicate GoesThrough(k: State, a: Action, k': State, s: Sem) {
    && (a == P(s) || (a == Retest && k.current in k.waiting && k.waiting[k.current] == s))
    && Free(k') && k'.current == k.current
  }

  /** The number of Ps on s that went through, */
  ghost function Passes(trace: seq<State>, actions: seq<Action>, s: Sem): nat
    requires |trace| == |actions| + 1
    decreases |actions|
  {
    if actions == [] then 0
    else
      var n := |actions| - 1;
      Passes(trace[..n + 1], actions[..n], s) + One(GoesThrough(trace[n], actions[n], trace[n + 1], s))
  }

  /** and of Vs on s. */
  ghost function Signals(actions: seq<Action>, s: Sem): nat {
    if actions == [] then 0 else Signals(actions[..|actions| - 1], s) + One(actions[|actions| - 1] == V(s))
  }

  lemma StepCounts(k: State, a: Action, s: Sem)
    requires Enabled(k, a) && s in k.sems
    ensures var k' := Step(k, a);
      s in k'.sems && k'.sems[s].value == k.sems[s].value + One(a == V(s)) - One(GoesThrough(k, a, k', s))
  {
  }

  /** In every run the value of a semaphore is what it was, and one more for every V, and one less for every P
      that has gone through. */
  lemma {:induction false} UnitsCounted(trace: seq<State>, actions: seq<Action>, s: Sem)
    requires Run(trace, actions) && s in trace[0].sems
    ensures s in trace[|actions|].sems
    ensures trace[|actions|].sems[s].value == trace[0].sems[s].value + Signals(actions, s) - Passes(trace, actions, s)
    decreases |actions|
  {
    if actions != [] {
      var n := |actions| - 1;
      UnitsCounted(trace[..n + 1], actions[..n], s);
      StepCounts(trace[n], actions[n], s);
    }
  }

  lemma {:induction false} OnlyDown(trace: seq<State>, actions: seq<Action>, s: Sem, i: nat, j: nat)
    requires Run(trace, actions) && i <= j <= |actions| && s in trace[i].sems
    requires forall m :: i <= m < j ==> actions[m] != V(s)
    ensures s in trace[j].sems && trace[j].sems[s].value <= trace[i].sems[s].value
    decreases j
  {
    if i < j {
      OnlyDown(trace, actions, s, i, j - 1);
      RunStep(trace, actions, j - 1);
      StepCounts(trace[j - 1], actions[j - 1], s);
    }
  }

  /** When one unit is left, no two Ps go through without a V between them. */
  lemma VBetween(trace: seq<State>, actions: seq<Action>, s: Sem, i: nat, j: nat)
    requires Run(trace, actions) && i < j < |actions| && s in trace[i].sems && trace[i].sems[s].value <= 1
    requires GoesThrough(trace[i], actions[i], trace[i + 1], s) && GoesThrough(trace[j], actions[j], trace[j + 1], s)
    ensures exists m :: i < m < j && actions[m] == V(s)
  {
    if forall m :: i < m < j ==> actions[m] != V(s) {
      RunStep(trace, actions, i);
      StepCounts(trace[i], actions[i], s);
      OnlyDown(trace, actions, s, i + 1, j);
      RunStep(trace, actions, j);
      StepCounts(trace[j], actions[j], s);
      assert false;
    }
  }

  /** A semaphore that starts at 1 and is signalled only by threads that have got through excludes them from each
      other: between any two Ps that go through there is a V. */
  lemma MutualExclusion(trace: seq<State>, actions: seq<Action>, s: Sem, i: nat, j: nat)
    requires Run(trace, actions) && s in trace[0].sems && trace[0].sems[s].value == 1
    requires forall p :: 0 <= p <= |actions| ==> Signals(actions[..p], s) <= Passes(trace[..p + 1], actions[..p], s)
    requires i < j < |actions|
    requires GoesThrough(trace[i], actions[i], trace[i + 1], s) && GoesThrough(trace[j], actions[j], trace[j + 1], s)
    ensures exists m :: i < m < j && actions[m] == V(s)
  {
    RunPrefix(trace, actions, i);
    UnitsCounted(trace[..i + 1], actions[..i], s);
    VBetween(trace, actions, s, i, j);
  }

  /** A P goes through exactly when there is a unit; otherwise the thread is last in the queue, and asleep. */
  lemma ThroughOrAsleep(k: State, a: Action, s: Sem)
    requires Enabled(k, a) && s in k.sems && (a == P(s) || (a == Retest && k.waiting[k.current] == s))
    ensures var k' := Step(k, a);
      && (GoesThrough(k, a, k', s) <==> k.sems[s].value > 0)
      && (!GoesThrough(k, a, k', s) ==>
           !k'.running && s in k'.sems && k'.sems[s].queue == k.sems[s].queue + [k.current])
  {
  }

  /** Nothing is ever stuck for good: a thread in the middle of P can test again, any other that runs can do whatever
      it wants, and while none runs a ready one can be dispatched and a handler can signal. */
  lemma NothingStuck(k: State, initial: map<Sem, nat>, s: Sem, t: Thread)
    requires Inv(k, initial) && s in k.sems && t !in k.live + k.finished
    ensures k.running && k.current in k.waiting ==> Enabled(k, Retest)
    ensures k.running && k.current !in k.waiting ==>
      Enabled(k, P(s)) && Enabled(k, V(s)) && Enabled(k, Yield) && Enabled(k, Fork(t)) && Enabled(k, Finish)
    ensures !k.running ==> Enabled(k, V(s)) && (k.ready != [] ==> Enabled(k, Dispatch))
  {
  }

  // ----- dispatches

  /** The step gives the processor to another thread. */
  ghost predicate Switches(k: State, a: Action) {
    a.Dispatch? || (a.Yield? && k.ready != [])
  }

  ghost function SwitchCount(trace: seq<State>, actions: seq<Action>): nat
    requires |trace| == |actions| + 1
    decreases |actions|
  {
    if actions == [] then 0
    else
      var n := |actions| - 1;
      SwitchCount(trace[..n + 1], actions[..n]) + One(Switches(trace[n], actions[n]))
  }

  lemma DispatchedBy(k: State, a: Action)
    requires Enabled(k, a)
    ensures Step(k, a).dispatched == if Switches(k, a) then k.dispatched + [k.ready[0]] else k.dispatched
    ensures Step(k, a).started == if Switches(k, a) then k.started + {k.ready[0]} else k.started
  {
  }

  /** In every run there have been as many dispatches as Sleeps ended and Yields made with a thread ready. */
  lemma {:induction false} DispatchCount(trace: seq<State>, actions: seq<Action>)
    requires Run(trace, actions)
    ensures |trace[|actions|].dispatched| == |trace[0].dispatched| + SwitchCount(trace, actions)
    decreases |actions|
  {
    if actions != [] {
      var n := |actions| - 1;
      DispatchCount(trace[..n + 1], actions[..n]);
      DispatchedBy(trace[n], actions[n]);
    }
  }

  /** A switch runs the first ready thread; a thread that yields is then the last one ready. */
  lemma SwitchRunsFirst(k: State, a: Action)
    requires Enabled(k, a) && Switches(k, a)
    ensures var k' := Step(k, a);
      && k.ready != [] && OnCpu(k', k.ready[0]) && k'.dispatched == k.dispatched + [k.ready[0]]
      && k'.ready == k.ready[1..] + (if a.Yield? then [k.current] else []) && k'.sems == k.sems
  {
    assert k.ready[1..] + [] == k.ready[1..];
  }

  /** A thread that yields runs again after all those that were ready before it. */
  lemma YieldedRunsAgain(trace: seq<State>, actions: seq<Action>)
    requires Run(trace, actions) && actions != [] && actions[0] == Yield && trace[0].ready != []
    requires var k, k' := trace[0], trace[|actions|]; |k.dispatched| + |k.ready| < |k'.dispatched|
    ensures trace[|actions|].dispatched[|trace[0].dispatched| + |trace[0].ready|] == trace[0].current
  {
    RunStep(trace, actions, 0);
    YieldAppends(trace[0]);
    InTurnAfterFirst(trace, actions, |trace[0].ready| - 1);
  }

  lemma YieldAppends(k: State)
    requires Enabled(k, Yield) && k.ready != []
    ensures var k', n := Step(k, Yield), |k.ready|;
      |k'.ready| == n && k'.ready[n - 1] == k.current && |k'.dispatched| == |k.dispatched| + 1
  {
    SwitchRunsFirst(k, Yield);
  }

  lemma InTurnAfterFirst(trace: seq<State>, actions: seq<Action>, p: nat)
    requires Run(trace, actions) && actions != []
    requires p < |trace[1].ready| && |trace[1].dispatched| + p < |trace[|actions|].dispatched|
    ensures trace[|actions|].dispatched[|trace[1].dispatched| + p] == trace[1].ready[p]
  {
    RunSuffix(trace, actions);
    var trace', actions' := trace[1..], actions[1..];
    assert trace'[0] == trace[1] && trace'[|actions'|] == trace[|actions|];
    DispatchedInTurn(trace', actions', p);
  }

  lemma ForkAppends(k: State, t: Thread)
    requires Enabled(k, Fork(t))
    ensures var k', n := Step(k, Fork(t)), |k.ready|;
      |k'.ready| == n + 1 && k'.ready[n] == t && |k'.dispatched| == |k.dispatched|
  {
  }

  /** And so does a thread that is forked. */
  lemma ForkedRuns(trace: seq<State>, actions: seq<Action>, t: Thread)
    requires Run(trace, actions) && actions != [] && actions[0] == Fork(t)
    requires var k, k' := trace[0], trace[|actions|]; |k.dispatched| + |k.ready| < |k'.dispatched|
    ensures trace[|actions|].dispatched[|trace[0].dispatched| + |trace[0].ready|] == t
  {
    RunStep(trace, actions, 0);
    ForkAppends(trace[0], t);
    InTurnAfterFirst(trace, actions, |trace[0].ready|);
  }

  // ----- which threads exist

  /** Threads that have run: at the start, or dispatched since. */
  lemma {:induction false} StartedThreads(trace: seq<State>, actions: seq<Action>, t: Thread)
    requires Run(trace, actions)
    ensures var k0, k := trace[0], trace[|actions|];
      && k0.dispatched <= k.dispatched
      && (t in k.started <==> t in k0.started || t in k.dispatched[|k0.dispatched|..])
    decreases |actions|
  {
    if actions != [] {
      var n := |actions| - 1;
      StartedThreads(trace[..n + 1], actions[..n], t);
      DispatchedBy(trace[n], actions[n]);
      var d0, d := trace[0].dispatched, trace[n].dispatched;
      if Switches(trace[n], actions[n]) {
        assert (d + [trace[n].ready[0]])[|d0|..] == d[|d0|..] + [trace[n].ready[0]];
      }
    }
  }

  ghost predicate Finishes(k: State, a: Action, t: Thread) {
    a == Finish && k.current == t
  }

  /** The step deletes a thread: a thread that has run before is dispatched while t is marked. */
  ghost predicate Deletes(k: State, a: Action, t: Thread) {
    Switches(k, a) && k.ready != [] && k.ready[0] in k.started && k.toBeDestroyed == Some(t)
  }

  ghost predicate Forked(actions: seq<Action>, t: Thread) {
    exists i :: 0 <= i < |actions| && actions[i] == Fork(t)
  }

  ghost predicate Finished(trace: seq<State>, actions: seq<Action>, t: Thread)
    requires |trace| == |actions| + 1
  {
    exists i :: 0 <= i < |actions| && Finishes(trace[i], actions[i], t)
  }

  ghost predicate Deleted(trace: seq<State>, actions: seq<Action>, t: Thread)
    requires |trace| == |actions| + 1
  {
    exists i :: 0 <= i < |actions| && Deletes(trace[i], actions[i], t)
  }

  lemma OneMore(trace: seq<State>, actions: seq<Action>, t: Thread, n: nat)
    requires |trace| == |actions| + 1 && |actions| == n + 1
    ensures Forked(actions, t) <==> Forked(actions[..n], t) || actions[n] == Fork(t)
    ensures Finished(trace, actions, t) <==> Finished(trace[..n + 1], actions[..n], t) || Finishes(trace[n], actions[n], t)
    ensures Deleted(trace, actions, t) <==> Deleted(trace[..n + 1], actions[..n], t) || Deletes(trace[n], actions[n], t)
  {
    var trace', actions' := trace[..n + 1], actions[..n];
    assert forall i :: 0 <= i < n ==> trace'[i] == trace[i] && actions'[i] == actions[i];
  }

  lemma LiveAfter(k: State, a: Action, t: Thread)
    requires Enabled(k, a)
    ensures t in Step(k, a).live <==> (t in k.live || a == Fork(t)) && !Deletes(k, a, t)
    ensures t in Step(k, a).finished <==> t in k.finished || Finishes(k, a, t)
  {
  }

  /** In every run: the live threads are those at the start and those forked, but for those deleted; and only a
      thread that has finished is deleted. */
  lemma {:induction false} LiveThreads(trace: seq<State>, actions: seq<Action>, initial: map<Sem, nat>, t: Thread)
    requires Run(trace, actions) && Inv(trace[0], initial)
    ensures var k := trace[|actions|];
      && Inv(k, initial)
      && (t in k.finished <==> t in trace[0].finished || Finished(trace, actions, t))
      && (Deleted(trace, actions, t) ==> t in k.finished)
      && (t in k.live <==> (t in trace[0].live || Forked(actions, t)) && !Deleted(trace, actions, t))
    decreases |actions|
  {
    if actions != [] {
      var n := |actions| - 1;
      LiveThreads(trace[..n + 1], actions[..n], initial, t);
      StepKeepsInv(trace[n], actions[n], initial);
      LiveAfter(trace[n], actions[n], t);
      OneMore(trace, actions, t, n);
    }
  }

  /** The mark is taken off, or put on another thread. */
  ghost predicate Unmarks(k: State, a: Action) {
    a == Finish || (Switches(k, a) && k.ready != [] && k.ready[0] in k.started)
  }

  ghost predicate MarkStands(trace: seq<State>, actions: seq<Action>, from: nat)
    requires |trace| == |actions| + 1
  {
    forall j :: from <= j < |actions| ==> !Unmarks(trace[j], actions[j])
  }

  ghost predicate MarkedAt(trace: seq<State>, actions: seq<Action>, t: Thread, i: nat)
    requires |trace| == |actions| + 1 && i < |actions|
  {
    Finishes(trace[i], actions[i], t) && MarkStands(trace, actions, i + 1)
  }

  /** The thread marked is the last one that finished, until a thread that has run before is dispatched. */
  lemma {:induction false} MarkedThread(trace: seq<State>, actions: seq<Action>, t: Thread)
    requires Run(trace, actions) && trace[0].toBeDestroyed == None
    ensures trace[|actions|].toBeDestroyed == Some(t) <==>
      exists i :: 0 <= i < |actions| && MarkedAt(trace, actions, t, i)
    decreases |actions|
  {
    if actions != [] {
      var n := |actions| - 1;
      var trace', actions' := trace[..n + 1], actions[..n];
      MarkedThread(trace', actions', t);
      MarkedAfter(trace[n], actions[n], t);
      assert MarkedAt(trace, actions, t, n) <==> Finishes(trace[n], actions[n], t);
      forall i | 0 <= i < n
        ensures MarkedAt(trace, actions, t, i) <==> MarkedAt(trace', actions', t, i) && !Unmarks(trace[n], actions[n])
      {
        MarkStandsOn(trace, actions, i + 1);
      }
    }
  }

  lemma MarkedAfter(k: State, a: Action, t: Thread)
    requires Enabled(k, a)
    ensures Step(k, a).toBeDestroyed == Some(t)
       <==> Finishes(k, a, t) || (k.toBeDestroyed == Some(t) && !Unmarks(k, a))
  {
  }

  lemma MarkStandsOn(trace: seq<State>, actions: seq<Action>, from: nat)
    requires |trace| == |actions| + 1 && from < |actions|
    ensures var n := |actions| - 1;
      MarkStands(trace, actions, from) <==> MarkStands(trace[..n + 1], actions[..n], from) && !Unmarks(trace[n], actions[n])
  {
    var n := |actions| - 1;
    var trace', actions' := trace[..n + 1], actions[..n];
    assert forall j :: 0 <= j < n ==> trace'[j] == trace[j] && actions'[j] == actions[j];
  }
}
