/** Runs of simulated time as a whole: no interrupt is lost, and those for the same time take turns
    (machine/interrupt.cc). */
module InterruptRuns {
  import opened Lists
  import opened Interrupts
  import Codec

  // ----- no interrupt is lost, and none is delivered twice

  type Bag = multiset<Keyed<PendingInterrupt>>

  ghost function Delivered(log: seq<Delivery>): Bag {
    if log == [] then multiset{}
    else
      var entry := log[|log| - 1].entry;
      Delivered(log[..|log| - 1]) + multiset{Keyed(entry, entry.when)}
  }

  /** What the handlers called so far have asked for. */
  ghost function Reordered(log: seq<Delivery>, script: Script): Bag {
    if log == [] then multiset{}
    else
      var n := |log| - 1;
      Reordered(log[..n], script) + Entries(log[n].at, script(n).requests)
  }

  /** Pending and delivered together are what was scheduled from outside and by handlers. */
  ghost predicate Conserved(t: Timeline, scheduled: Bag, script: Script) {
    multiset(t.queue) + Delivered(t.log) == scheduled + Reordered(t.log, script)
  }

  lemma DeliverConserves(t: Timeline, script: Script, scheduled: Bag)
    requires KeyedByTime(t.queue) && t.queue != [] && Conserved(t, scheduled, script)
    ensures Conserved(Deliver(t, script), scheduled, script) && KeyedByTime(Deliver(t, script).queue)
  {
    var q, n, d := t.queue, |t.log|, Delivery(t.queue[0].item, t.now);
    WithRequestsItems(q[1..], t.now, script(n).requests);
    assert q == [q[0]] + q[1..];
    var entries := Entries(t.now, script(n).requests);
    MoveAndAdd(multiset(q[1..]), multiset{q[0]}, Delivered(t.log), scheduled, Reordered(t.log, script), entries);
    OneMoreDelivery(t.log, d, script);
  }

  lemma OneMoreDelivery(log: seq<Delivery>, d: Delivery, script: Script)
    ensures Delivered(log + [d]) == Delivered(log) + multiset{Keyed(d.entry, d.entry.when)}
    ensures Reordered(log + [d], script) == Reordered(log, script) + Entries(d.at, script(|log|).requests)
  {
    assert (log + [d])[..|log|] == log;
  }

  lemma MoveAndAdd(rest: Bag, head: Bag, done: Bag, scheduled: Bag, asked: Bag, more: Bag)
    requires head + rest + done == scheduled + asked
    ensures rest + more + (done + head) == scheduled + (asked + more)
  {
    assert rest + more + (done + head) == head + rest + done + more;
  }

  lemma AddBoth(pending: Bag, done: Bag, scheduled: Bag, asked: Bag, more: Bag)
    requires pending + done == scheduled + asked
    ensures pending + more + done == scheduled + more + asked
  {
    assert pending + more + done == pending + done + more;
  }

  lemma CheckConserves(t: Timeline, advance: bool, idle: bool, script: Script, scheduled: Bag)
    requires KeyedByTime(t.queue) && Conserved(t, scheduled, script)
    ensures Conserved(Check(t, advance, idle, script).0, scheduled, script)
    ensures KeyedByTime(Check(t, advance, idle, script).0.queue)
  {
    if t.queue != [] {
      var t1 := if advance && t.queue[0].key > t.now then t.(now := t.queue[0].key) else t;
      PutBackItems(t.queue);
      InsertedKeys(t.queue[1..], t.queue[0]);
      DeliverConserves(t1, script, scheduled);
    }
  }

  lemma {:induction false} DrainConserves(t: Timeline, idle: bool, script: Script, scheduled: Bag)
    requires KeyedByTime(t.queue) && Conserved(t, scheduled, script)
    ensures Conserved(Drain(t, idle, script), scheduled, script) && KeyedByTime(Drain(t, idle, script).queue)
    decreases Due(t)
  {
    CheckConserves(t, false, idle, script, scheduled);
    var (t1, fired) := Check(t, false, idle, script);
    if fired {
      DeliverLowersDue(t, script);
      DrainConserves(t1, idle, script, scheduled);
    }
  }

  ghost function Requested(t: Timeline, e: Event): Bag {
    if e.Schedule? then multiset{Entry(t.now, e.request)} else multiset{}
  }

  lemma StepConserves(t: Timeline, e: Event, script: Script, scheduled: Bag)
    requires KeyedByTime(t.queue) && Conserved(t, scheduled, script)
    ensures Conserved(Step(t, e, script), scheduled + Requested(t, e), script)
  {
    assert !e.Schedule? ==> scheduled + Requested(t, e) == scheduled;
    match e
    case Tick(ticks) => DrainConserves(t.(now := t.now + ticks), false, script, scheduled);
    case Schedule(r) =>
      InsertedItems(t.queue, Entry(t.now, r));
      AddBoth(multiset(t.queue), Delivered(t.log), scheduled, Reordered(t.log, script), multiset{Entry(t.now, r)});
    case Idle =>
      CheckConserves(t, true, true, script, scheduled);
      var (t1, fired) := Check(t, true, true, script);
      if fired {
        DrainConserves(t1, true, script, scheduled);
      }
  }

  ghost function Scheduled(trace: seq<Timeline>, events: seq<Event>): Bag
    requires |trace| == |events| + 1
    decreases |events|
  {
    if events == [] then multiset{}
    else
      var n := |events| - 1;
      Scheduled(trace[..n + 1], events[..n]) + Requested(trace[n], events[n])
  }

  /** In every run each interrupt that was pending at the start or scheduled since, by an event or by a handler, has
      been delivered once or is pending once, and nothing else is. */
  lemma {:induction false} NothingLost(trace: seq<Timeline>, events: seq<Event>, script: Script)
    requires Run(trace, events, script) && trace[0].log == []
    ensures Conserved(trace[|events|], multiset(trace[0].queue) + Scheduled(trace, events), script)
    decreases |events|
  {
    if events != [] {
      var n := |events| - 1;
      NothingLost(trace[..n + 1], events[..n], script);
      StepConserves(trace[n], events[n], script, multiset(trace[0].queue) + Scheduled(trace[..n + 1], events[..n]));
    }
  }

  // ----- the order of interrupts for the same time

  lemma QuietTick(t: Timeline, ticks: int, script: Script)
    requires KeyedByTime(t.queue) && t.queue != [] && t.now + ticks < t.queue[0].key
    ensures Step(t, Tick(ticks), script) == PutBack(t.(now := t.now + ticks))
  {
  }

  ghost predicate OnlyTicks(events: seq<Event>) {
    forall i :: 0 <= i < |events| ==> events[i].Tick?
  }

  lemma {:induction false} ClockMovesOn(trace: seq<Timeline>, events: seq<Event>, script: Script, i: nat)
    requires Run(trace, events, script) && OnlyTicks(events) && i <= |events| && Sound(trace[0], 0)
    ensures trace[i].now <= trace[|events|].now
    decreases |events|
  {
    if i < |events| {
      var n := |events| - 1;
      ClockMovesOn(trace[..n + 1], events[..n], script, i);
      RunsAreOnTime(trace[..n + 1], events[..n], script);
      var ticks := events[n].ticks;
      DrainKeepsSound(trace[n].(now := trace[n].now + ticks), false, script, SYSTEM_TICK);
    }
  }

  /** As long as nothing falls due, every tick turns the interrupts of the earliest time around by one place:
      their order depends on the number of ticks since, not only on the order in which they were scheduled. */
  lemma {:induction false} QuietRun(trace: seq<Timeline>, events: seq<Event>, script: Script)
    requires Run(trace, events, script) && OnlyTicks(events) && Sound(trace[0], 0)
    requires trace[0].queue != [] && trace[|events|].now < trace[0].queue[0].key
    ensures trace[|events|].queue == Rotated(trace[0].queue, |events| % Group(trace[0].queue))
    ensures trace[|events|].log == trace[0].log
    decreases |events|
  {
    var q := trace[0].queue;
    if events == [] {
      assert q == Rotated(q, 0);
    } else {
      var n, ticks := |events| - 1, events[|events| - 1].ticks;
      ClockMovesOn(trace, events, script, n);
      QuietRun(trace[..n + 1], events[..n], script);
      RunsAreOnTime(trace[..n + 1], events[..n], script);
      TickRotates(trace[n], ticks, script, q, n % Group(q));
      NextResidue(n, Group(q));
    }
  }

  lemma TickRotates(t: Timeline, ticks: int, script: Script, q: Queue, r: nat)
    requires Sound(t, 0) && KeyedByTime(q) && q != [] && r < Group(q) && t.queue == Rotated(q, r)
    requires 0 <= ticks <= SYSTEM_TICK && Step(t, Tick(ticks), script).now < q[0].key
    ensures Step(t, Tick(ticks), script).queue == Rotated(q, if r + 1 < Group(q) then r + 1 else 0)
    ensures Step(t, Tick(ticks), script).log == t.log
  {
    GroupSpec(q);
    RotatedIsSorted(q, r);
    DrainKeepsSound(t.(now := t.now + ticks), false, script, SYSTEM_TICK);
    QuietTick(t, ticks, script);
    PutBackRotates(q, r);
    FullTurn(q);
  }

  /** The tick at which they fall due delivers them in the order the ticks before have left. */
  lemma DeliveredInTurn(trace: seq<Timeline>, events: seq<Event>, script: Script, n: nat)
    requires Run(trace, events, script) && OnlyTicks(events) && Sound(trace[0], 0) && |events| == n + 1
    requires trace[0].queue != [] && trace[n].now < trace[0].queue[0].key <= trace[n + 1].now
    requires var q := trace[0].queue; Group(q) < |q| ==> trace[n + 1].now < q[Group(q)].key
    ensures var q, g := trace[0].queue, Group(trace[0].queue);
      trace[n + 1].log == trace[0].log + Deliveries(Rotated(q, n % g)[..g], trace[n + 1].now)
  {
    var q := trace[0].queue;
    RunsAreOnTime(trace[..n + 1], events[..n], script);
    QuietRun(trace[..n + 1], events[..n], script);
    GroupDelivered(trace[n], events[n].ticks, script, q, n % Group(q));
  }

  lemma GroupDelivered(t: Timeline, ticks: int, script: Script, q: Queue, r: nat)
    requires Sound(t, 0) && KeyedByTime(q) && q != [] && r < Group(q) && t.queue == Rotated(q, r)
    requires 0 <= ticks <= SYSTEM_TICK && q[0].key <= Step(t, Tick(ticks), script).now
    requires Group(q) < |q| ==> Step(t, Tick(ticks), script).now < q[Group(q)].key
    ensures Step(t, Tick(ticks), script).log
         == t.log + Deliveries(Rotated(q, r)[..Group(q)], Step(t, Tick(ticks), script).now)
  {
    var t1 := t.(now := t.now + ticks);
    DrainKeepsSound(t1, false, script, SYSTEM_TICK);
    DueGroup(q, r, t1.now);
    DrainDeliversDue(t1, script);
  }

  lemma DueGroup(q: Queue, r: nat, now: int)
    requires KeyedByTime(q) && q != [] && r < Group(q)
    requires q[0].key <= now && (Group(q) < |q| ==> now < q[Group(q)].key)
    ensures Position(Rotated(q, r), now) == Group(q)
  {
    var g, t := Group(q), Rotated(q, r);
    RotatedIsSorted(q, r);
    GroupSpec(q);
    GroupSpec(t);
    PositionUnique(t, now, g);
  }

  /** It happens: of two interrupts scheduled for the same time, the first is delivered last. */
  lemma SwappedDeliveries(now: int, a: FutureRequest, b: FutureRequest, script: Script)
    requires a.fromNow == b.fromNow == USER_TICK + SYSTEM_TICK
    ensures var t1 := Step(Timeline(now, [], []), Schedule(a), script);
      var t2 := Step(t1, Schedule(b), script);
      var t3 := Step(t2, Tick(USER_TICK), script);
      t2.queue == [Entry(now, a), Entry(now, b)] && t3.queue == [Entry(now, b), Entry(now, a)]
      && Step(t3, Tick(SYSTEM_TICK), script).log
         == [Delivery(Entry(now, b).item, now + 11), Delivery(Entry(now, a).item, now + 11)]
  {
    var x, y := Entry(now, a), Entry(now, b);
    var t1 := Step(Timeline(now, [], []), Schedule(a), script);
    assert t1.queue == [x];
    var t2 := Step(t1, Schedule(b), script);
    PositionUnique([x], y.key, 1);
    assert t2.queue == [x, y];
    var t3 := Step(t2, Tick(USER_TICK), script);
    QuietTick(t2, USER_TICK, script);
    PositionUnique([y], x.key, 1);
    assert t3.queue == [y, x];
    var t4 := t3.(now := now + 11);
    PositionUnique(t4.queue, t4.now, 2);
    DrainDeliversDue(t4, script);
    assert t4.queue[..2] == [y, x];
  }

  lemma NextResidue(n: nat, g: nat)
    requires g > 0
    ensures (n + 1) % g == if n % g + 1 < g then n % g + 1 else 0
  {
    var q, r := n / g, n % g;
    assert n == q * g + r;
    if r + 1 < g {
      Codec.RecordIndex(q, r + 1, g);
    } else {
      assert n + 1 == (q + 1) * g;
      Codec.RecordIndex(q + 1, 0, g);
    }
  }
}
