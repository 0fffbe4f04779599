/** The kernel's mutable state and the routines that run with interrupts off
    (threads/scheduler.cc, threads/thread.cc, threads/synch.cc), on linked lists, each proved to be the
    corresponding step of the step system. */
module Threads {
  import opened Basics
  import opened Lists
  import opened Kernel

  ghost function Items(contents: seq<Keyed<Thread>>): (ts: seq<Thread>)
    ensures |ts| == |contents|
  {
    seq(|contents|, i requires 0 <= i < |contents| => contents[i].item)
  }

  lemma ItemsAppend(contents: seq<Keyed<Thread>>, t: Thread)
    ensures Items(contents + [Keyed(t, 0)]) == Items(contents) + [t]
  {
  }

  lemma ItemsTail(contents: seq<Keyed<Thread>>)
    requires contents != []
    ensures Items(contents[1..]) == Items(contents)[1..]
  {
  }

  class Semaphore {
    var value: nat
    const queue: List<Thread>
    ghost var waiters: seq<Thread>
    ghost var Repr: set<object>

    ghost predicate Valid()
      reads this, Repr
    {
      && this in Repr && queue in Repr && queue.Repr <= Repr && this !in queue.Repr
      && queue.Valid() && waiters == Items(queue.Contents)
    }

    constructor (initialValue: nat)
      ensures Valid() && fresh(Repr) && value == initialValue && waiters == []
    {
      value := initialValue;
      queue := new List();
      waiters := [];
      new;
      Repr := {this} + queue.Repr;
    }

    method Enqueue(t: Thread)
      requires Valid()
      modifies Repr
      ensures Valid() && fresh(Repr - old(Repr)) && value == old(value) && waiters == old(waiters) + [t]
    {
      ItemsAppend(queue.Contents, t);
      queue.Append(t);
      waiters := waiters + [t];
      Repr := Repr + queue.Repr;
    }

    /** Takes the first thread off the queue, if there is one. */
    method Dequeue() returns (t: Option<Thread>)
      requires Valid()
      modifies Repr
      ensures Valid() && Repr == old(Repr) && value == old(value)
      ensures t == if old(waiters) == [] then None else Some(old(waiters)[0])
      ensures waiters == if old(waiters) == [] then [] else old(waiters)[1..]
    {
      t := queue.Remove();
      if t.Some? {
        ItemsTail(old(queue.Contents));
        waiters := waiters[1..];
      }
    }

    method Add(n: int)
      requires Valid() && value + n >= 0
      modifies this`value
      ensures Valid() && value == old(value) + n
    {
      value := value + n;
    }
  }

  // ----- the semaphores of the kernel, by number

  class SemaphoreTable {
    var sems: map<Sem, Semaphore>
    ghost var Values: map<Sem, Kernel.Semaphore>
    ghost var Repr: set<object>

    /** Every semaphore has cells of its own, and is as Values says. */
    ghost predicate Valid()
      reads this, Repr
    {
      && this in Repr && Values.Keys == sems.Keys
      && (forall s :: s in sems ==> Holds(s))
      && (forall s, s' :: s in sems && s' in sems && s != s' ==> sems[s].Repr !! sems[s'].Repr)
    }

    ghost predicate Holds(s: Sem)
      requires s in sems && this in Repr
      reads this, Repr
    {
      && sems[s] in Repr && sems[s].Repr <= Repr && this !in sems[s].Repr && sems[s].Valid()
      && s in Values && Values[s] == Kernel.Semaphore(sems[s].value, sems[s].waiters)
    }

    constructor ()
      ensures Valid() && fresh(Repr) && sems == map[] && Values == map[]
    {
      sems, Values, Repr := map[], map[], {this};
    }

    method Create(s: Sem, initialValue: nat)
      requires Valid() && s !in sems
      modifies this
      ensures Valid() && fresh(Repr - old(Repr)) && sems.Keys == old(sems).Keys + {s}
      ensures Values == old(Values)[s := Kernel.Semaphore(initialValue, [])]
    {
      ghost var v, r := Values, Repr;
      var sem := new Semaphore(initialValue);
      sems := sems[s := sem];
      Repr := r + sem.Repr;
      Values := v[s := Kernel.Semaphore(initialValue, [])];
    }

    method Enqueue(s: Sem, t: Thread)
      requires Valid() && s in sems
      modifies Repr
      ensures Valid() && fresh(Repr - old(Repr)) && sems == old(sems)
      ensures Values == old(Values)[s := old(Values)[s].(queue := old(Values)[s].queue + [t])]
    {
      ghost var v, r := Values, Repr;
      sems[s].Enqueue(t);
      Repr := r + sems[s].Repr;
      Values := v[s := v[s].(queue := v[s].queue + [t])];
      forall s' | s' in sems && s' != s
        ensures Holds(s')
      {
        assert old(Holds(s')) && old(sems[s'].Repr) !! old(sems[s].Repr);
      }
    }

    method Dequeue(s: Sem) returns (t: Option<Thread>)
      requires Valid() && s in sems
      modifies Repr
      ensures Valid() && Repr == old(Repr) && sems == old(sems)
      ensures var q := old(Values)[s].queue;
        && t == (if q == [] then None else Some(q[0]))
        && Values == old(Values)[s := old(Values)[s].(queue := if q == [] then [] else q[1..])]
    {
      ghost var v := Values;
      t := sems[s].Dequeue();
      Values := v[s := v[s].(queue := if v[s].queue == [] then [] else v[s].queue[1..])];
      forall s' | s' in sems && s' != s
        ensures Holds(s')
      {
        assert old(Holds(s')) && old(sems[s'].Repr) !! old(sems[s].Repr);
      }
    }

    method IsTaken(s: Sem) returns (taken: bool)
      requires Valid() && s in sems
      ensures taken <==> Values[s].value == 0
    {
      taken := sems[s].value == 0;
    }

    method Add(s: Sem, n: int)
      requires Valid() && s in sems && Values[s].value + n >= 0
      modifies Repr
      ensures Valid() && Repr == old(Repr) && sems == old(sems)
      ensures Values == old(Values)[s := old(Values)[s].(value := old(Values)[s].value + n)]
    {
      ghost var v := Values;
      sems[s].Add(n);
      Values := v[s := v[s].(value := v[s].value + n)];
    }
  }

  // ----- the machine

  ghost function FirstWoken(k: State, s: Sem): State
    requires s in k.sems
  {
    var q := k.sems[s].queue;
    if q == [] then k else k.(sems := k.sems[s := k.sems[s].(queue := q[1..])], ready := k.ready + [q[0]])
  }

  ghost function UnitGiven(k: State, s: Sem): State
    requires s in k.sems
  {
    k.(sems := k.sems[s := k.sems[s].(value := k.sems[s].value + 1)], ups := k.ups[s := Count(k.ups, s) + 1])
  }

  /** V is a wakeup, if there is anyone to wake, and then a unit more. */
  lemma SignalInTwo(k: State, s: Sem)
    requires s in k.sems
    ensures UnitGiven(FirstWoken(k, s), s) == Signal(k, s)
  {
    assert UnitGiven(FirstWoken(k, s), s).sems == Signal(k, s).sems;
  }

  class Machine {
    var currentThread: Thread
    const readyList: List<Thread>
    const semaphores: SemaphoreTable
    var threadToBeDestroyed: Option<Thread>
    var live: set<Thread>
    var started: set<Thread>
    /** Where each thread's control is, and the history of the run. */
    ghost var running: bool
    ghost var waiting: map<Thread, Sem>
    ghost var finished: set<Thread>
    ghost var ups: map<Sem, nat>
    ghost var downs: map<Sem, nat>
    ghost var dispatched: seq<Thread>

    ghost predicate Valid()
      reads this, readyList, readyList.Repr, semaphores, semaphores.Repr
    {
      && readyList.Valid() && semaphores.Valid() && readyList.Repr !! semaphores.Repr
      && this !in readyList.Repr && this !in semaphores.Repr
    }

    ghost function View(): State
      reads this, readyList, semaphores
    {
      State(currentThread, running, Items(readyList.Contents), semaphores.Values, waiting, live, started, finished,
            threadToBeDestroyed, ups, downs, dispatched)
    }

    constructor (main: Thread)
      ensures Valid() && fresh(readyList.Repr) && fresh(semaphores.Repr)
      ensures currentThread == main && Initial(View(), map[])
    {
      currentThread, threadToBeDestroyed, live, started := main, None, {main}, {main};
      semaphores := new SemaphoreTable();
      readyList := new List();
      running, waiting, finished, ups, downs, dispatched := true, map[], {}, map[], map[], [];
    }

    /** Before the run starts. */
    method CreateSemaphore(s: Sem, initialValue: nat, ghost initial: map<Sem, nat>)
      requires Valid() && Initial(View(), initial) && s !in semaphores.sems
      modifies semaphores
      ensures Valid() && fresh(semaphores.Repr - old(semaphores.Repr))
      ensures semaphores.sems.Keys == old(semaphores.sems).Keys + {s} && Initial(View(), initial[s := initialValue])
    {
      semaphores.Create(s, initialValue);
    }

    method ReadyToRun(thread: Thread)
      requires Valid()
      modifies readyList.Repr
      ensures Valid() && fresh(readyList.Repr - old(readyList.Repr))
      ensures Items(readyList.Contents) == Items(old(readyList.Contents)) + [thread]
    {
      ItemsAppend(readyList.Contents, thread);
      readyList.Append(thread);
    }

    method FindNextToRun() returns (next: Option<Thread>)
      requires Valid()
      modifies readyList.Repr
      ensures Valid() && readyList.Repr <= old(readyList.Repr)
      ensures var ready := old(View()).ready;
        && next == (if ready == [] then None else Some(ready[0]))
        && Items(readyList.Contents) == if ready == [] then [] else ready[1..]
    {
      if readyList.Contents != [] {
        ItemsTail(readyList.Contents);
      }
      next := readyList.Remove();
    }

    method SwitchTo(nextThread: Thread)
      modifies this`currentThread, this`running, this`started, this`dispatched
      ensures currentThread == nextThread && running && started == old(started) + {nextThread}
      ensures dispatched == old(dispatched) + [nextThread]
    {
      currentThread, running := nextThread, true;
      started, dispatched := started + {nextThread}, dispatched + [nextThread];
    }

    method DeleteFinished()
      modifies this`threadToBeDestroyed, this`live
      ensures threadToBeDestroyed == None
      ensures live == if old(threadToBeDestroyed) == None then old(live) else old(live) - {old(threadToBeDestroyed).value}
    {
      if threadToBeDestroyed != None {
        live := live - {threadToBeDestroyed.value};
        threadToBeDestroyed := None;
      }
    }

    /** Dispatches nextThread and, once on its stack, deletes the thread that finished. */
    method Run(nextThread: Thread)
      requires Valid()
      modifies this
      ensures Valid() && View() == RunNext(old(View()), nextThread, old(View()).ready)
    {
      var resumes := nextThread in started;
      SwitchTo(nextThread);
      if resumes {
        DeleteFinished();
      }
    }

    /** The end of Sleep: the first ready thread runs; with none the machine idles until a handler wakes one. */
    method Sleep() returns (idle: bool)
      requires Valid() && !running
      modifies this, readyList.Repr
      ensures Valid() && readyList.Repr <= old(readyList.Repr)
      ensures idle <==> !Enabled(old(View()), Action.Dispatch)
      ensures View() == if idle then old(View()) else Step(old(View()), Action.Dispatch)
    {
      var nextThread := FindNextToRun();
      idle := nextThread == None;
      if !idle {
        Run(nextThread.value);
      }
    }

    /** One turn of the loop in P: takes a unit, or queues up and sleeps. */
    method TestSemaphore(s: Sem) returns (asleep: bool, idle: bool)
      requires Valid() && running && s in semaphores.sems
      requires currentThread in waiting ==> waiting[currentThread] == s
      modifies this, readyList.Repr, semaphores.Repr
      ensures Valid() && readyList.Repr <= old(readyList.Repr) && fresh(semaphores.Repr - old(semaphores.Repr))
      ensures asleep <==> old(View()).sems[s].value == 0
      ensures idle <==> asleep && old(View()).ready == []
      ensures var k1 := Test(old(View()), s);
        View() == if asleep && !idle then Step(k1, Action.Dispatch) else k1
    {
      asleep := semaphores.IsTaken(s);
      if asleep {
        QueueUp(s);
        idle := Sleep();
      } else {
        TakeUnit(s);
        idle := false;
      }
    }

    method QueueUp(s: Sem)
      requires Valid() && s in semaphores.sems && semaphores.Values[s].value == 0
      modifies this, semaphores.Repr
      ensures Valid() && fresh(semaphores.Repr - old(semaphores.Repr)) && View() == Test(old(View()), s) && !running
    {
      semaphores.Enqueue(s, currentThread);
      waiting, running := waiting[currentThread := s], false;
    }

    method TakeUnit(s: Sem)
      requires Valid() && s in semaphores.sems && semaphores.Values[s].value > 0
      modifies this, semaphores.Repr
      ensures Valid() && semaphores.Repr == old(semaphores.Repr) && View() == Test(old(View()), s)
    {
      semaphores.Add(s, -1);
      waiting, downs := waiting - {currentThread}, downs[s := Count(downs, s) + 1];
    }

    method WakeFirst(s: Sem)
      requires Valid() && s in semaphores.sems
      modifies readyList.Repr, semaphores.Repr
      ensures Valid() && fresh(readyList.Repr - old(readyList.Repr)) && semaphores.Repr == old(semaphores.Repr)
      ensures semaphores.sems == old(semaphores.sems) && View() == FirstWoken(old(View()), s)
    {
      var thread := semaphores.Dequeue(s);
      if thread != None {
        ReadyToRun(thread.value);
      }
    }

    method GiveUnit(s: Sem)
      requires Valid() && s in semaphores.sems
      modifies this, semaphores.Repr
      ensures Valid() && semaphores.Repr == old(semaphores.Repr) && View() == UnitGiven(old(View()), s)
    {
      semaphores.Add(s, 1);
      ups := ups[s := Count(ups, s) + 1];
    }

    /** V: wakes the first thread in the queue, if any, and adds a unit. */
    method SignalSemaphore(s: Sem)
      requires Valid() && Enabled(View(), Action.V(s))
      modifies this, readyList.Repr, semaphores.Repr
      ensures Valid() && fresh(readyList.Repr - old(readyList.Repr)) && semaphores.Repr == old(semaphores.Repr)
      ensures View() == Step(old(View()), Action.V(s))
    {
      SignalInTwo(View(), s);
      WakeFirst(s);
      GiveUnit(s);
    }

    method YieldCpu()
      requires Valid() && Enabled(View(), Action.Yield)
      modifies this, readyList.Repr
      ensures Valid() && fresh(readyList.Repr - old(readyList.Repr)) && View() == Step(old(View()), Action.Yield)
    {
      var nextThread := FindNextToRun();
      if nextThread != None {
        ReadyToRun(currentThread);
        Run(nextThread.value);
      }
    }

    method ForkThread(t: Thread)
      requires Valid() && Enabled(View(), Action.Fork(t))
      modifies this, readyList.Repr
      ensures Valid() && fresh(readyList.Repr - old(readyList.Repr)) && View() == Step(old(View()), Action.Fork(t))
    {
      ReadyToRun(t);
      live := live + {t};
    }

    /** Marks the current thread as the one to be deleted and sleeps for good. */
    method FinishThread() returns (idle: bool)
      requires Valid() && Enabled(View(), Action.Finish)
      modifies this, readyList.Repr
      ensures Valid() && readyList.Repr <= old(readyList.Repr)
      ensures idle <==> old(View()).ready == []
      ensures var k1 := Step(old(View()), Action.Finish);
        View() == if idle then k1 else Step(k1, Action.Dispatch)
    {
      threadToBeDestroyed := Some(currentThread);
      finished, running := finished + {currentThread}, false;
      idle := Sleep();
    }
  }
}
