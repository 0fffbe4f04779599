/** Threads, the ready list and semaphores as one step system (threads/synch.cc,
    threads/thread.cc, threads/scheduler.cc). Every step is what runs with interrupts off:
    the test in P, V, a dispatch. Between steps any handler or time slice may come in. */
module Kernel {
  import opened Basics

  type Thread = nat
  type Sem = int

  datatype Semaphore = Semaphore(value: nat, queue: seq<Thread>)

  /** `running` is false while the current thread is inside Sleep, waiting for a ready thread.
      `waiting` maps a thread that went to sleep in P, and has not yet got through, to its semaphore.
      `ups` and `downs` count completed Vs and Ps, and `dispatched` is every thread ever dispatched, in order. */
  datatype State = State(
    current: Thread, running: bool, ready: seq<Thread>, sems: map<Sem, Semaphore>, waiting: map<Thread, Sem>,
    live: set<Thread>, started: set<Thread>, finished: set<Thread>, toBeDestroyed: Option<Thread>,
    ups: map<Sem, nat>, downs: map<Sem, nat>, dispatched: seq<Thread>)

  datatype Action = P(s: Sem) | Retest | V(s: Sem) | Yield | Fork(t: Thread) | Finish | Dispatch

  // ----- steps

  /** The current thread is executing and is not in the middle of P. */
  predicate Free(k: State) {
    k.running && k.current !in k.waiting
  }

  predicate Enabled(k: State, a: Action) {
    match a
    case P(s) => Free(k) && s in k.sems
    case Retest => k.running && k.current in k.waiting && k.waiting[k.current] in k.sems
    case V(s) => (Free(k) || !k.running) && s in k.sems
    case Yield => Free(k)
    case Fork(t) => Free(k) && t !in k.live + k.finished
    case Finish => Free(k)
    case Dispatch => !k.running && k.ready != []
  }

  function Count(m: map<Sem, nat>, s: Sem): nat {
    if s in m then m[s] else 0
  }

  /** The test in P: take a unit, or queue up and go to sleep. */
  function Test(k: State, s: Sem): State
    requires s in k.sems
  {
    var sem := k.sems[s];
    if sem.value == 0 then
      k.(sems := k.sems[s := sem.(queue := sem.queue + [k.current])],
         waiting := k.waiting[k.current := s], running := false)
    else
      k.(sems := k.sems[s := sem.(value := sem.value - 1)],
         waiting := k.waiting - {k.current}, downs := k.downs[s := Count(k.downs, s) + 1])
  }

  function Signal(k: State, s: Sem): State
    requires s in k.sems
  {
    var sem := k.sems[s];
    var k1 := k.(ups := k.ups[s := Count(k.ups, s) + 1]);
    if sem.queue == [] then k1.(sems := k.sems[s := sem.(value := sem.value + 1)])
    else k1.(sems := k.sems[s := Semaphore(sem.value + 1, sem.queue[1..])], ready := k.ready + [sem.queue[0]])
  }

  /** Scheduler::Run: a thread that has run before deletes the thread to be destroyed; one that
      has not starts in ThreadRoot and does not. */
  function RunNext(k: State, next: Thread, ready: seq<Thread>): State {
    var k1 := k.(current := next, running := true, ready := ready, started := k.started + {next},
                 dispatched := k.dispatched + [next]);
    if next in k.started && k.toBeDestroyed.Some?
    then k1.(live := k.live - {k.toBeDestroyed.value}, toBeDestroyed := None)
    else k1
  }

  function Step(k: State, a: Action): State
    requires Enabled(k, a)
  {
    match a
    case P(s) => Test(k, s)
    case Retest => Test(k, k.waiting[k.current])
    case V(s) => Signal(k, s)
    case Yield => if k.ready == [] then k else RunNext(k, k.ready[0], k.ready[1..] + [k.current])
    case Fork(t) => k.(live := k.live + {t}, ready := k.ready + [t])
    case Finish => k.(finished := k.finished + {k.current}, toBeDestroyed := Some(k.current), running := false)
    case Dispatch => RunNext(k, k.ready[0], k.ready[1..])
  }

  // ----- what every step keeps

  ghost predicate NoDup(s: seq<Thread>) {
    forall i, j :: 0 <= i < j < |s| ==> s[i] != s[j]
  }

  /** The thread is executing, or about to test a semaphore again. */
  ghost predicate OnCpu(k: State, t: Thread) {
    k.running && t == k.current
  }

  /** Finished threads are nowhere, the rest are live, and the ready list holds no thread twice
      and not the one that is executing. */
  ghost predicate ThreadsOk(k: State) {
    && NoDup(k.ready) && (k.running ==> k.current !in k.ready && k.current !in k.finished)
    && (forall t :: t in k.ready ==> t in k.live && t !in k.finished)
    && (forall t :: t in k.waiting ==> t in k.live && t !in k.finished && k.waiting[t] in k.sems)
    && (k.current in k.finished || k.current in k.live)
    && (k.toBeDestroyed.Some? ==> k.toBeDestroyed.value in k.finished)
    && (!k.running ==> k.current in k.finished || k.current in k.waiting)
  }

  /** A thread queued on s is queued there once, and is in no other place. */
  ghost predicate QueueOk(k: State, s: Sem)
    requires s in k.sems
  {
    var q := k.sems[s].queue;
    && NoDup(q)
    && forall t :: t in q ==> t !in k.ready && !OnCpu(k, t) && t in k.waiting && k.waiting[t] == s
  }

  /** Threads taken off the queue of s that have not yet tested its value again. */
  ghost function Woken(k: State, s: Sem): set<Thread>
    requires s in k.sems
  {
    set t | t in k.waiting && k.waiting[t] == s && t !in k.sems[s].queue
  }

  /** Every unit handed out is accounted for, and as long as threads are queued on s all its units
      are spoken for by woken threads, each of which is ready or executing. */
  ghost predicate UnitsOk(k: State, s: Sem, initial: map<Sem, nat>)
    requires s in k.sems
  {
    && k.sems[s].value == Count(initial, s) + Count(k.ups, s) - Count(k.downs, s)
    && (k.sems[s].queue != [] ==> k.sems[s].value <= |Woken(k, s)|)
    && (forall t :: t in Woken(k, s) ==> t in k.ready || OnCpu(k, t))
  }

  /** No live thread is lost: it is executing, ready, or waiting for a semaphore. */
  ghost predicate Placed(k: State) {
    forall t :: t in k.live && t !in k.finished ==> OnCpu(k, t) || t in k.ready || t in k.waiting
  }

  ghost predicate Inv(k: State, initial: map<Sem, nat>) {
    ThreadsOk(k) && Placed(k) && forall s :: s in k.sems ==> QueueOk(k, s) && UnitsOk(k, s, initial)
  }

  lemma HeadAndTail(q: seq<Thread>)
    requires NoDup(q) && q != []
    ensures NoDup(q[1..]) && q[0] in q && q[0] !in q[1..]
    ensures forall t :: t in q <==> t == q[0] || t in q[1..]
  {
    assert q == [q[0]] + q[1..];
  }

  lemma AppendOne(q: seq<Thread>, x: Thread)
    requires NoDup(q) && x !in q
    ensures NoDup(q + [x]) && forall t :: t in q + [x] <==> t == x || t in q
  {
  }

  lemma TestKeepsThreads(k: State, s: Sem)
    requires ThreadsOk(k) && Testing(k, s)
    ensures ThreadsOk(Test(k, s))
  {
  }

  ghost predicate Testing(k: State, s: Sem) {
    k.running && s in k.sems && (k.current in k.waiting ==> k.waiting[k.current] == s)
  }

  lemma TestKeepsOwnQueue(k: State, s: Sem)
    requires Testing(k, s) && QueueOk(k, s) && ThreadsOk(k)
    ensures QueueOk(Test(k, s), s)
  {
    AppendOne(k.sems[s].queue, k.current);
  }

  lemma TestKeepsOtherQueue(k: State, s: Sem, s': Sem)
    requires Testing(k, s) && s' in k.sems && s' != s && QueueOk(k, s')
    ensures QueueOk(Test(k, s), s')
  {
  }

  lemma TestKeepsOwnUnits(k: State, s: Sem, initial: map<Sem, nat>)
    requires Testing(k, s) && QueueOk(k, s) && UnitsOk(k, s, initial)
    ensures UnitsOk(Test(k, s), s, initial)
  {
    assert Woken(Test(k, s), s) == Woken(k, s) - {k.current};
  }

  lemma TestKeepsOtherUnits(k: State, s: Sem, s': Sem, initial: map<Sem, nat>)
    requires Testing(k, s) && s' in k.sems && s' != s && UnitsOk(k, s', initial)
    ensures UnitsOk(Test(k, s), s', initial)
  {
    assert Woken(Test(k, s), s') == Woken(k, s');
  }

  lemma SignalKeepsThreads(k: State, s: Sem)
    requires ThreadsOk(k) && s in k.sems && QueueOk(k, s)
    ensures ThreadsOk(Signal(k, s))
  {
    var q := k.sems[s].queue;
    if q != [] {
      HeadAndTail(q);
      AppendOne(k.ready, q[0]);
    }
  }

  lemma SignalKeepsOwnQueue(k: State, s: Sem)
    requires s in k.sems && QueueOk(k, s)
    ensures QueueOk(Signal(k, s), s)
  {
    var q := k.sems[s].queue;
    if q != [] {
      HeadAndTail(q);
    }
  }

  lemma SignalKeepsOtherQueue(k: State, s: Sem, s': Sem)
    requires s in k.sems && s' in k.sems && s' != s && QueueOk(k, s) && QueueOk(k, s')
    ensures QueueOk(Signal(k, s), s')
  {
    var q := k.sems[s].queue;
    if q != [] {
      assert q[0] in q;
    }
  }

  lemma SignalKeepsOwnUnits(k: State, s: Sem, initial: map<Sem, nat>)
    requires s in k.sems && QueueOk(k, s) && UnitsOk(k, s, initial)
    ensures UnitsOk(Signal(k, s), s, initial)
  {
    var q := k.sems[s].queue;
    if q == [] {
      assert Woken(Signal(k, s), s) == Woken(k, s);
    } else {
      HeadAndTail(q);
      var k' := Signal(k, s);
      assert k'.waiting == k.waiting && k'.sems[s].queue == q[1..];
      assert q[0] in k.waiting && q[0] !in Woken(k, s);
      assert Woken(k', s) == Woken(k, s) + {q[0]};
    }
  }

  lemma SignalKeepsOtherUnits(k: State, s: Sem, s': Sem, initial: map<Sem, nat>)
    requires s in k.sems && s' in k.sems && s' != s && UnitsOk(k, s', initial)
    ensures UnitsOk(Signal(k, s), s', initial)
  {
    assert Woken(Signal(k, s), s') == Woken(k, s');
  }

  /** A dispatch: `ready` is the ready list without its head, and with `back` put at its end. */
  lemma RunNextKeepsThreads(k: State, back: seq<Thread>)
    requires ThreadsOk(k) && k.ready != [] && Returns(k, back)
    ensures ThreadsOk(RunNext(k, k.ready[0], k.ready[1..] + back))
  {
    HeadAndTail(k.ready);
    if back != [] {
      AppendOne(k.ready[1..], k.current);
    } else {
      assert k.ready[1..] + back == k.ready[1..];
    }
  }

  /** A thread that gives up the processor goes to the end of the ready list; one that sleeps does not. */
  ghost predicate Returns(k: State, back: seq<Thread>) {
    if k.running then back == [k.current] && k.current !in k.waiting else back == []
  }

  lemma RunNextKeepsQueue(k: State, back: seq<Thread>, s: Sem)
    requires ThreadsOk(k) && k.ready != [] && Returns(k, back) && s in k.sems && QueueOk(k, s)
    ensures QueueOk(RunNext(k, k.ready[0], k.ready[1..] + back), s)
  {
    HeadAndTail(k.ready);
  }

  lemma RunNextKeepsUnits(k: State, back: seq<Thread>, s: Sem, initial: map<Sem, nat>)
    requires ThreadsOk(k) && k.ready != [] && Returns(k, back) && s in k.sems && UnitsOk(k, s, initial)
    ensures UnitsOk(RunNext(k, k.ready[0], k.ready[1..] + back), s, initial)
  {
    HeadAndTail(k.ready);
    assert Woken(RunNext(k, k.ready[0], k.ready[1..] + back), s) == Woken(k, s);
  }

  lemma RunNextKeepsPlaced(k: State, back: seq<Thread>)
    requires ThreadsOk(k) && Placed(k) && k.ready != [] && Returns(k, back)
    ensures Placed(RunNext(k, k.ready[0], k.ready[1..] + back))
  {
    assert k.ready == [k.ready[0]] + k.ready[1..];
  }

  lemma OtherStepsKeep(k: State, a: Action, initial: map<Sem, nat>)
    requires Inv(k, initial) && Enabled(k, a) && (a.Fork? || a.Finish?)
    ensures Inv(Step(k, a), initial)
  {
    var k' := Step(k, a);
    if a.Fork? {
      AppendOne(k.ready, a.t);
    }
    forall s | s in k.sems
      ensures QueueOk(k', s) && UnitsOk(k', s, initial)
    {
      assert QueueOk(k, s) && UnitsOk(k, s, initial);
      assert Woken(k', s) == Woken(k, s);
    }
  }

  lemma RunNextKeeps(k: State, back: seq<Thread>, initial: map<Sem, nat>)
    requires Inv(k, initial) && k.ready != [] && Returns(k, back)
    ensures Inv(RunNext(k, k.ready[0], k.ready[1..] + back), initial)
  {
    RunNextKeepsThreads(k, back);
    RunNextKeepsPlaced(k, back);
    var k' := RunNext(k, k.ready[0], k.ready[1..] + back);
    forall s | s in k.sems
      ensures QueueOk(k', s) && UnitsOk(k', s, initial)
    {
      RunNextKeepsQueue(k, back, s);
      RunNextKeepsUnits(k, back, s, initial);
    }
  }

  lemma TestKeeps(k: State, s: Sem, initial: map<Sem, nat>)
    requires Inv(k, initial) && Testing(k, s)
    ensures Inv(Test(k, s), initial)
  {
    TestKeepsThreads(k, s);
    TestKeepsOwnQueue(k, s);
    TestKeepsOwnUnits(k, s, initial);
    forall s' | s' in k.sems && s' != s
      ensures QueueOk(Test(k, s), s') && UnitsOk(Test(k, s), s', initial)
    {
      TestKeepsOtherQueue(k, s, s');
      TestKeepsOtherUnits(k, s, s', initial);
    }
  }

  lemma SignalKeeps(k: State, s: Sem, initial: map<Sem, nat>)
    requires Inv(k, initial) && s in k.sems
    ensures Inv(Signal(k, s), initial)
  {
    SignalKeepsThreads(k, s);
    SignalKeepsOwnQueue(k, s);
    SignalKeepsOwnUnits(k, s, initial);
    forall s' | s' in k.sems && s' != s
      ensures QueueOk(Signal(k, s), s') && UnitsOk(Signal(k, s), s', initial)
    {
      SignalKeepsOtherQueue(k, s, s');
      SignalKeepsOtherUnits(k, s, s', initial);
    }
  }

  lemma StepKeepsInv(k: State, a: Action, initial: map<Sem, nat>)
    requires Inv(k, initial) && Enabled(k, a)
    ensures Inv(Step(k, a), initial)
  {
    match a
    case P(s) => TestKeeps(k, s, initial);
    case Retest => TestKeeps(k, k.waiting[k.current], initial);
    case V(s) => SignalKeeps(k, s, initial);
    case Yield => if k.ready != [] { RunNextKeeps(k, [k.current], initial); }
    case Dispatch =>
      RunNextKeeps(k, [], initial);
      assert k.ready[1..] + [] == k.ready[1..];
    case Fork(_) => OtherStepsKeep(k, a, initial);
    case Finish => OtherStepsKeep(k, a, initial);
  }

  // ----- whole runs

  ghost predicate Initial(k: State, initial: map<Sem, nat>) {
    && k.running && k.ready == [] && k.waiting == map[] && k.live == {k.current} && k.finished == {}
    && k.toBeDestroyed == None && k.ups == map[] && k.downs == map[] && k.dispatched == []
    && forall s :: s in k.sems ==> k.sems[s] == Semaphore(Count(initial, s), [])
  }

  ghost predicate Run(trace: seq<State>, actions: seq<Action>) {
    && |trace| == |actions| + 1
    && (actions != [] ==>
      var n := |actions| - 1;
      Enabled(trace[n], actions[n]) && trace[n + 1] == Step(trace[n], actions[n]) && Run(trace[..n + 1], actions[..n]))
  }

  /** In every interleaving: no thread in two places, no unit lost, no wakeup lost. */
  lemma {:induction false} RunsKeepInv(trace: seq<State>, actions: seq<Action>, initial: map<Sem, nat>)
    requires Run(trace, actions) && Initial(trace[0], initial)
    ensures Inv(trace[|actions|], initial)
    decreases |actions|
  {
    if actions == [] {
      assert forall s :: s in trace[0].sems ==> Woken(trace[0], s) == {};
    } else {
      var n := |actions| - 1;
      RunsKeepInv(trace[..n + 1], actions[..n], initial);
      StepKeepsInv(trace[n], actions[n], initial);
    }
  }

  /** While threads are queued on a semaphore that has units, some thread that was woken for them
      is on the ready list or already executing: the units will be taken. */
  lemma UnitsWillBeTaken(k: State, initial: map<Sem, nat>, s: Sem)
    requires Inv(k, initial) && s in k.sems && k.sems[s].queue != [] && k.sems[s].value > 0
    ensures exists t :: t in k.waiting && k.waiting[t] == s && (t in k.ready || OnCpu(k, t))
  {
    assert UnitsOk(k, s, initial);
    assert Woken(k, s) != {};
    var t :| t in Woken(k, s);
  }

  /** No thread is on two queues, or on a queue and the ready list. */
  lemma OnePlaceOnly(k: State, initial: map<Sem, nat>, s: Sem, s': Sem, t: Thread)
    requires Inv(k, initial) && s in k.sems && s' in k.sems && t in k.sems[s].queue
    ensures t !in k.ready && !OnCpu(k, t) && (t in k.sems[s'].queue ==> s' == s)
  {
    assert QueueOk(k, s) && QueueOk(k, s');
  }

  /** Every live thread is in exactly one place: executing, on the ready list once, or on the queue of the
      one semaphore it waits for; and on no other queue. */
  lemma ExactlyOnePlace(k: State, initial: map<Sem, nat>, t: Thread)
    requires Inv(k, initial) && t in k.live && t !in k.finished
    ensures One(OnCpu(k, t)) + One(t in k.ready)
          + One(t in k.waiting && k.waiting[t] in k.sems && t in k.sems[k.waiting[t]].queue) == 1
    ensures forall s :: s in k.sems && t in k.sems[s].queue ==> t in k.waiting && k.waiting[t] == s
    ensures NoDup(k.ready) && forall s :: s in k.sems ==> NoDup(k.sems[s].queue)
  {
    forall s | s in k.sems
      ensures NoDup(k.sems[s].queue) && (t in k.sems[s].queue ==> t in k.waiting && k.waiting[t] == s)
    {
      assert QueueOk(k, s);
    }
    if t in k.waiting {
      var s := k.waiting[t];
      assert QueueOk(k, s) && UnitsOk(k, s, initial);
      assert t !in k.sems[s].queue ==> t in Woken(k, s);
    }
  }

  /** A thread that has finished stays so, and is never again executing, ready or queued. */
  lemma {:induction false} FinishedNeverRuns(trace: seq<State>, actions: seq<Action>, initial: map<Sem, nat>, t: Thread)
    requires Run(trace, actions) && Inv(trace[0], initial) && t in trace[0].finished
    ensures var k := trace[|actions|];
      && Inv(k, initial) && t in k.finished && !OnCpu(k, t) && t !in k.ready
      && forall s :: s in k.sems ==> t !in k.sems[s].queue
    decreases |actions|
  {
    var k := trace[|actions|];
    if actions != [] {
      var n := |actions| - 1;
      FinishedNeverRuns(trace[..n + 1], actions[..n], initial, t);
      StepKeepsInv(trace[n], actions[n], initial);
    }
    FinishedIsNowhere(k, initial, t);
  }

  lemma FinishedIsNowhere(k: State, initial: map<Sem, nat>, t: Thread)
    requires Inv(k, initial) && t in k.finished
    ensures !OnCpu(k, t) && t !in k.ready && t !in k.waiting && forall s :: s in k.sems ==> t !in k.sems[s].queue
  {
    forall s | s in k.sems
      ensures t !in k.sems[s].queue
    {
      assert QueueOk(k, s);
    }
  }

  /** The thread that a dispatch deletes is not the one dispatched, not ready, and on no queue. */
  lemma DestroyedIsNowhere(k: State, a: Action, initial: map<Sem, nat>, t: Thread)
    requires Inv(k, initial) && Enabled(k, a) && t in k.live && t !in Step(k, a).live
    ensures var k' := Step(k, a);
      t != k'.current && t !in k'.ready && t !in k'.waiting && forall s :: s in k'.sems ==> t !in k'.sems[s].queue
  {
    StepKeepsInv(k, a, initial);
    var k' := Step(k, a);
    assert k.toBeDestroyed == Some(t) && t in k'.finished && k'.running;
    assert ThreadsOk(k');
    forall s | s in k'.sems
      ensures t !in k'.sems[s].queue
    {
      assert QueueOk(k', s);
    }
  }

  /** The ready list is first in, first out: from any point on, the threads dispatched and then
      the ready list begin with the ready list of that point. */
  lemma {:induction false} DispatchInOrder(trace: seq<State>, actions: seq<Action>)
    requires Run(trace, actions)
    ensures var k0, k := trace[0], trace[|actions|];
      k0.dispatched <= k.dispatched && k0.ready <= k.dispatched[|k0.dispatched|..] + k.ready
    decreases |actions|
  {
    if actions != [] {
      var n := |actions| - 1;
      DispatchInOrder(trace[..n + 1], actions[..n]);
      var k0, k, k' := trace[0], trace[n], trace[n + 1];
      QueueDiscipline(k, actions[n]);
      ChainPrefixes(k0.dispatched, k.dispatched, k'.dispatched, k0.ready, k.ready, k'.ready);
    }
  }

  lemma ChainPrefixes(d0: seq<Thread>, d: seq<Thread>, d': seq<Thread>, r0: seq<Thread>, r: seq<Thread>, r': seq<Thread>)
    requires d0 <= d && d <= d' && r0 <= d[|d0|..] + r && r <= d'[|d|..] + r'
    ensures d0 <= d' && r0 <= d'[|d0|..] + r'
  {
    assert d'[|d0|..] + r' == d[|d0|..] + (d'[|d|..] + r');
  }

  lemma RunNextDiscipline(k: State, back: seq<Thread>)
    requires k.ready != []
    ensures var k' := RunNext(k, k.ready[0], k.ready[1..] + back);
      k.dispatched <= k'.dispatched && k.ready <= k'.dispatched[|k.dispatched|..] + k'.ready
  {
    var k' := RunNext(k, k.ready[0], k.ready[1..] + back);
    assert k'.dispatched[|k.dispatched|..] == [k.ready[0]];
    assert k.ready == [k.ready[0]] + k.ready[1..];
  }

  lemma QueueDiscipline(k: State, a: Action)
    requires Enabled(k, a)
    ensures var k' := Step(k, a);
      k.dispatched <= k'.dispatched && k.ready <= k'.dispatched[|k.dispatched|..] + k'.ready
  {
    if a.Yield? && k.ready != [] {
      RunNextDiscipline(k, [k.current]);
    } else if a.Dispatch? {
      RunNextDiscipline(k, []);
      assert k.ready[1..] + [] == k.ready[1..];
    } else {
      assert Step(k, a).dispatched[|k.dispatched|..] == [];
    }
  }

  /** Hence a thread at position p of the ready list is the (p + 1)-th thread dispatched from then on. */
  lemma DispatchedInTurn(trace: seq<State>, actions: seq<Action>, p: nat)
    requires Run(trace, actions)
    requires p < |trace[0].ready| && |trace[0].dispatched| + p < |trace[|actions|].dispatched|
    ensures trace[|actions|].dispatched[|trace[0].dispatched| + p] == trace[0].ready[p]
  {
    DispatchInOrder(trace, actions);
    var k0, k := trace[0], trace[|actions|];
    assert (k.dispatched[|k0.dispatched|..] + k.ready)[p] == k0.ready[p];
  }

  /** The threads a step makes ready by a V on s. */
  ghost function Woke(k: State, a: Action, k': State, s: Sem): seq<Thread> {
    if a == V(s) && k.ready <= k'.ready then k'.ready[|k.ready|..] else []
  }

  ghost function WokenBy(trace: seq<State>, actions: seq<Action>, s: Sem): seq<Thread>
    requires |trace| == |actions| + 1
    decreases |actions|
  {
    if actions == [] then []
    else
      var n := |actions| - 1;
      WokenBy(trace[..n + 1], actions[..n], s) + Woke(trace[n], actions[n], trace[n + 1], s)
  }

  lemma WakeDiscipline(k: State, a: Action, s: Sem)
    requires Enabled(k, a) && s in k.sems
    ensures var k' := Step(k, a); s in k'.sems && k.sems[s].queue <= Woke(k, a, k', s) + k'.sems[s].queue
  {
    var k', q := Step(k, a), k.sems[s].queue;
    if a == V(s) && q != [] {
      assert k'.ready[|k.ready|..] == [q[0]];
      assert q == [q[0]] + q[1..];
    }
  }

  /** A semaphore's queue is first in, first out too: from any point on, the threads its Vs wake and then its
      queue begin with the queue of that point. */
  lemma {:induction false} WokenInOrder(trace: seq<State>, actions: seq<Action>, s: Sem)
    requires Run(trace, actions) && s in trace[0].sems
    ensures s in trace[|actions|].sems
    ensures trace[0].sems[s].queue <= WokenBy(trace, actions, s) + trace[|actions|].sems[s].queue
    decreases |actions|
  {
    if actions != [] {
      var n := |actions| - 1;
      WokenInOrder(trace[..n + 1], actions[..n], s);
      var k, k' := trace[n], trace[n + 1];
      WakeDiscipline(k, actions[n], s);
      ChainQueues(trace[0].sems[s].queue, WokenBy(trace[..n + 1], actions[..n], s), k.sems[s].queue,
                  Woke(k, actions[n], k', s), k'.sems[s].queue);
    }
  }

  lemma ChainQueues(q0: seq<Thread>, before: seq<Thread>, q: seq<Thread>, woken: seq<Thread>, q': seq<Thread>)
    requires q0 <= before + q && q <= woken + q'
    ensures q0 <= before + woken + q'
  {
    assert before + woken + q' == before + (woken + q');
  }
}
